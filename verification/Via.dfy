/** VIA's persistent configuration (quantum/via.c over quantum/dynamic_keymap.c): the layout of the regions,
    the writes that reset them, and what survives when the power fails between two of these writes. */
module Via {

  import opened Widths
  import opened Modular
  import opened Eeprom

  // ---------- layout ----------

  /** Where everything lives (quantum/via.h:27-57, quantum/dynamic_keymap.c:28-101). Without
      ENCODER_MAP_ENABLE there are 0 encoders. */
  datatype Layout = Layout(
    magicAddr: nat,
    optionsSize: nat,
    keymapAddr: nat,
    layers: nat,
    rows: nat,
    cols: nat,
    encoderAddr: nat,
    encoders: nat,
    macroAddr: nat,
    macroSize: nat)
  {
    function OptionsAddr(): nat {
      magicAddr + 3
    }

    function LayerBytes(): nat {
      rows * cols * 2
    }

    function KeymapBytes(): nat {
      layers * LayerBytes()
    }

    function EncoderBytes(): nat {
      layers * (encoders * 4)
    }
  }

  ghost predicate Apart(a: nat, aSize: nat, b: nat, bSize: nat) {
    a + aSize <= b || b + bSize <= a
  }

  /** The regions do not overlap and fit into a memory of `size` bytes. */
  ghost predicate Separate(l: Layout, size: nat) {
    && l.OptionsAddr() + l.optionsSize <= size
    && l.keymapAddr + l.KeymapBytes() <= size
    && l.encoderAddr + l.EncoderBytes() <= size
    && l.macroAddr + l.macroSize <= size
    && Apart(l.magicAddr, 3 + l.optionsSize, l.keymapAddr, l.KeymapBytes())
    && Apart(l.magicAddr, 3 + l.optionsSize, l.encoderAddr, l.EncoderBytes())
    && Apart(l.magicAddr, 3 + l.optionsSize, l.macroAddr, l.macroSize)
    && Apart(l.keymapAddr, l.KeymapBytes(), l.encoderAddr, l.EncoderBytes())
    && Apart(l.keymapAddr, l.KeymapBytes(), l.macroAddr, l.macroSize)
    && Apart(l.encoderAddr, l.EncoderBytes(), l.macroAddr, l.macroSize)
  }

  /** The addresses the headers compute when a keyboard overrides none of them. */
  function DefaultLayout(eeconfigSize: nat, optionsSize: nat, customSize: nat, layers: nat, rows: nat, cols: nat,
                         encoders: nat, maxAddr: nat): Layout
  {
    var keymapAddr := eeconfigSize + 3 + optionsSize + customSize;
    var encoderAddr := keymapAddr + layers * (rows * cols * 2);
    var macroAddr := encoderAddr + layers * (encoders * 4);
    Layout(eeconfigSize, optionsSize, keymapAddr, layers, rows, cols, encoderAddr, encoders, macroAddr,
           if maxAddr >= macroAddr then maxAddr - macroAddr + 1 else 0)
  }

  /** The default regions never overlap, provided the static assertion of line 95 holds. */
  lemma {:induction false} DefaultLayoutSeparate(eeconfigSize: nat, optionsSize: nat, customSize: nat, layers: nat,
                                                 rows: nat, cols: nat, encoders: nat, maxAddr: nat, size: nat)
    requires maxAddr < size
    requires maxAddr - DefaultLayout(eeconfigSize, optionsSize, customSize, layers, rows, cols, encoders,
      maxAddr).macroAddr >= 100
    ensures Separate(DefaultLayout(eeconfigSize, optionsSize, customSize, layers, rows, cols, encoders, maxAddr), size)
    ensures DefaultLayout(eeconfigSize, optionsSize, customSize, layers, rows, cols, encoders, maxAddr).macroSize > 100
  {
  }

  /** They leave no gap: up to the last address every byte belongs to the magic, the options, the keyboard's own
      region, the keymap, the encoder map or the macros, in this order. */
  lemma {:induction false} DefaultLayoutTight(eeconfigSize: nat, optionsSize: nat, customSize: nat, layers: nat,
                                              rows: nat, cols: nat, encoders: nat, maxAddr: nat, a: nat)
    requires DefaultLayout(eeconfigSize, optionsSize, customSize, layers, rows, cols, encoders, maxAddr).macroAddr
      <= maxAddr
    ensures var l := DefaultLayout(eeconfigSize, optionsSize, customSize, layers, rows, cols, encoders, maxAddr);
            && l.magicAddr == eeconfigSize && l.optionsSize == optionsSize
            && l.keymapAddr == l.OptionsAddr() + optionsSize + customSize
            && (l.keymapAddr <= a <= maxAddr <==>
                  || In(a, l.keymapAddr, l.KeymapBytes())
                  || In(a, l.encoderAddr, l.EncoderBytes())
                  || In(a, l.macroAddr, l.macroSize))
            && l.keymapAddr <= l.encoderAddr <= l.macroAddr
            && (l.layers, l.rows, l.cols, l.encoders) == (layers, rows, cols, encoders)
  {
    MulNatural(layers, rows * cols * 2);
    MulNatural(layers, encoders * 4);
  }

  // ---------- what a reset writes ----------

  /** What the firmware in flash brings along: the magic bytes of its build date, the default layout
      options, and the keymaps. */
  datatype Firmware = Firmware(
    magic: (Byte, Byte, Byte),
    options: U32,
    keymap: (nat, nat, nat) -> U16,
    encoderMap: (nat, nat, bool) -> U16)

  /** One BCD byte of the magic (lines 42-44). */
  function Bcd(tens: char, ones: char): Byte {
    (tens as int % 16) * 16 + ones as int % 16
  }

  /** Digits never give 0xFF, so the magic of a build date never looks erased. */
  lemma {:induction false} DateIsNotErased(tens: char, ones: char)
    requires '0' <= tens <= '9' && '0' <= ones <= '9'
    ensures Bcd(tens, ones) != 0xFF
  {
    assert ones as int % 16 <= 9;
  }

  /** The magic of a build date such as "2019-11-05-11:29:54": its year in the century, month and day. */
  function BuildMagic(date: string): (Byte, Byte, Byte)
    requires |date| >= 10
  {
    (Bcd(date[2], date[3]), Bcd(date[5], date[6]), Bcd(date[8], date[9]))
  }

  /** It tells two days of a century apart, so that a firmware built on another day resets the memory. */
  lemma {:induction false} MagicTellsDays(d: string, e: string)
    requires |d| >= 10 && |e| >= 10
    requires forall i :: i in {2, 3, 5, 6, 8, 9} ==> '0' <= d[i] <= '9' && '0' <= e[i] <= '9'
    ensures BuildMagic(d) == BuildMagic(e) <==> forall i :: i in {2, 3, 5, 6, 8, 9} ==> d[i] == e[i]
    ensures BuildMagic(d).0 != 0xFF
  {
    BcdTells(d[2], d[3], e[2], e[3]);
    BcdTells(d[5], d[6], e[5], e[6]);
    BcdTells(d[8], d[9], e[8], e[9]);
    DateIsNotErased(d[2], d[3]);
    hide Bcd;
  }

  lemma {:induction false} BcdTells(t: char, o: char, t': char, o': char)
    requires '0' <= t <= '9' && '0' <= o <= '9' && '0' <= t' <= '9' && '0' <= o' <= '9'
    ensures Bcd(t, o) == Bcd(t', o') <==> t == t' && o == o'
    ensures Bcd(t, o) == 16 * (t as int - '0' as int) + (o as int - '0' as int)
  {
    assert t as int % 16 == t as int - '0' as int && o as int % 16 == o as int - '0' as int;
    assert t' as int % 16 == t' as int - '0' as int && o' as int % 16 == o' as int - '0' as int;
  }

  ghost function MagicWrites(l: Layout, fw: Firmware, valid: bool): seq<Write> {
    [Write(l.magicAddr, if valid then fw.magic.0 else 0xFF),
     Write(l.magicAddr + 1, if valid then fw.magic.1 else 0xFF),
     Write(l.magicAddr + 2, if valid then fw.magic.2 else 0xFF)]
  }

  /** A valid memory carries the magic; one marked as not valid is erased in all three bytes. */
  lemma {:induction false} MagicSet(l: Layout, fw: Firmware, m: seq<Byte>, valid: bool)
    requires l.magicAddr + 3 <= |m|
    ensures forall w :: w in MagicWrites(l, fw, valid) ==> w.addr < |m|
    ensures Apply(m, MagicWrites(l, fw, valid))[l.magicAddr..l.magicAddr + 3]
      == if valid then [fw.magic.0, fw.magic.1, fw.magic.2] else [0xFF, 0xFF, 0xFF]
  {
    var ws := MagicWrites(l, fw, valid);
    ApplyOne(m, [], ws[0]);
    ApplyOne(m, [] + [ws[0]], ws[1]);
    ApplyOne(m, [] + [ws[0]] + [ws[1]], ws[2]);
    assert [] + [ws[0]] + [ws[1]] + [ws[2]] == ws;
  }

  /** The layout options, least significant byte first, from the end of their region down. */
  ghost function OptionWrites(addr: nat, size: nat, value: U32): seq<Write> {
    if size == 0 then []
    else [Write(addr + size - 1, value % 256)] + OptionWrites(addr, size - 1, value / 256)
  }

  function High(kc: U16): Byte {
    kc / 256
  }

  function Low(kc: U16): Byte {
    kc % 256
  }

  function Half(kc: U16, i: nat): Byte {
    if i % 2 == 0 then High(kc) else Low(kc)
  }

  /** Byte `i` of one layer of the keymap in flash, stored big endian. */
  function LayerByte(l: Layout, fw: Firmware, layer: nat, i: nat): Byte {
    if l.cols == 0 then 0 else Half(fw.keymap(layer, Div(i / 2, l.cols), Mod(i / 2, l.cols)), i)
  }

  function LayerImage(l: Layout, fw: Firmware, layer: nat): seq<Byte> {
    seq(l.LayerBytes(), i requires 0 <= i => LayerByte(l, fw, layer, i))
  }

  /** dynamic_keymap_set_encoder for both directions of one encoder. */
  ghost function EncoderWrites(l: Layout, fw: Firmware, layer: nat, encoder: nat): seq<Write> {
    var addr := l.encoderAddr + layer * (l.encoders * 4) + encoder * 4;
    var cw, ccw := fw.encoderMap(layer, encoder, true), fw.encoderMap(layer, encoder, false);
    [Write(addr, High(cw)), Write(addr + 1, Low(cw)), Write(addr + 2, High(ccw)), Write(addr + 3, Low(ccw))]
  }

  ghost function EncodersWrites(l: Layout, fw: Firmware, layer: nat, n: nat): seq<Write> {
    if n == 0 then [] else EncodersWrites(l, fw, layer, n - 1) + EncoderWrites(l, fw, layer, n - 1)
  }

  ghost function LayerWrites(l: Layout, fw: Firmware, layer: nat): seq<Write> {
    BlockWrites(l.keymapAddr + layer * l.LayerBytes(), LayerImage(l, fw, layer))
    + EncodersWrites(l, fw, layer, l.encoders)
  }

  ghost function KeymapWrites(l: Layout, fw: Firmware, n: nat): seq<Write> {
    if n == 0 then [] else KeymapWrites(l, fw, n - 1) + LayerWrites(l, fw, n - 1)
  }

  ghost function MacroWrites(addr: nat, size: nat): seq<Write> {
    BlockWrites(addr, seq(size, _ => 0))
  }

  ghost function DataWrites(l: Layout, fw: Firmware): seq<Write> {
    OptionWrites(l.OptionsAddr(), l.optionsSize, fw.options)
    + KeymapWrites(l, fw, l.layers)
    + MacroWrites(l.macroAddr, l.macroSize)
  }

  /** eeconfig_init_via: invalidate, reset everything, validate. */
  ghost function InitWrites(l: Layout, fw: Firmware): seq<Write> {
    MagicWrites(l, fw, false) + DataWrites(l, fw) + MagicWrites(l, fw, true)
  }

  // ---------- what a reader sees ----------

  ghost predicate MagicOk(l: Layout, fw: Firmware, m: seq<Byte>) {
    && l.magicAddr + 3 <= |m|
    && m[l.magicAddr] == fw.magic.0 && m[l.magicAddr + 1] == fw.magic.1 && m[l.magicAddr + 2] == fw.magic.2
  }

  /** via_get_layout_options: most significant byte first. */
  ghost function ReadOptions(m: seq<Byte>, addr: nat, size: nat): nat
    requires addr + size <= |m|
  {
    if size == 0 then 0 else ReadOptions(m, addr, size - 1) * 256 + m[addr + size - 1]
  }

  function CellAddr(l: Layout, layer: nat, row: nat, col: nat): nat {
    l.keymapAddr + layer * l.LayerBytes() + row * (l.cols * 2) + col * 2
  }

  ghost predicate InKeymap(l: Layout, layer: nat, row: nat, col: nat) {
    layer < l.layers && row < l.rows && col < l.cols
  }

  /** The keycode a cell stands for: big endian. */
  function WordAt(m: seq<Byte>, addr: nat): U16
  {
    if addr + 2 <= |m| then m[addr] as int * 256 + m[addr + 1] else 0
  }

  function EncoderAddr(l: Layout, layer: nat, encoder: nat, clockwise: bool): nat {
    l.encoderAddr + layer * (l.encoders * 4) + encoder * 4 + (if clockwise then 0 else 2)
  }

  lemma {:induction false} ScaledBelow(a: nat, n: nat, unit: nat)
    requires a < n
    ensures a * unit + unit <= n * unit
  {
    MulNatural(n - a - 1, unit);
    assert (n - a - 1) * unit == n * unit - (a * unit + unit);
  }

  /** A cell lies inside its layer, and the layer inside the keymap. */
  lemma {:induction false} CellInside(l: Layout, layer: nat, row: nat, col: nat)
    requires InKeymap(l, layer, row, col)
    ensures var i := (row * l.cols + col) * 2;
            && i + 2 <= l.LayerBytes()
            && CellAddr(l, layer, row, col) == l.keymapAddr + layer * l.LayerBytes() + i
            && i % 2 == 0 && i / 2 == row * l.cols + col
            && Div(row * l.cols + col, l.cols) == row && Mod(row * l.cols + col, l.cols) == col
    ensures CellAddr(l, layer, row, col) + 2 <= l.keymapAddr + l.KeymapBytes()
  {
    ScaledBelow(layer, l.layers, l.LayerBytes());
    RowColumn(row, col, l.rows, l.cols);
  }

  lemma {:induction false} RowColumn(row: nat, col: nat, rows: nat, cols: nat)
    requires row < rows && col < cols
    ensures (row * cols + col) * 2 + 2 <= rows * cols * 2
    ensures row * (cols * 2) + col * 2 == (row * cols + col) * 2
    ensures Div(row * cols + col, cols) == row && Mod(row * cols + col, cols) == col
  {
    ScaledBelow(row, rows, cols);
    Quotient(row, col, cols);
    Doubled(row, cols);
    hide Div, Mod;
  }

  lemma {:induction false} Doubled(a: nat, b: nat)
    ensures a * (b * 2) == a * b * 2
  {
  }

  lemma {:induction false} Quotient(q: nat, r: nat, n: nat)
    requires r < n
    ensures Div(q * n + r, n) == q && Mod(q * n + r, n) == r
  {
    var x := q * n + r;
    assert x == (x / n) * n + x % n;
    if x / n < q {
      ScaledBelow(x / n, q, n);
    } else if x / n > q {
      ScaledBelow(q, x / n, n);
    }
  }

  lemma {:induction false} EncoderInside(l: Layout, layer: nat, encoder: nat, clockwise: bool)
    requires layer < l.layers && encoder < l.encoders
    ensures EncoderAddr(l, layer, encoder, clockwise) + 2 <= l.encoderAddr + l.EncoderBytes()
  {
    ScaledBelow(layer, l.layers, l.encoders * 4);
    ScaledBelow(encoder, l.encoders, 4);
  }

  ghost predicate KeymapIs(l: Layout, m: seq<Byte>, keymap: (nat, nat, nat) -> U16) {
    forall layer: nat, row: nat, col: nat :: InKeymap(l, layer, row, col) ==>
      WordAt(m, CellAddr(l, layer, row, col)) == keymap(layer, row, col)
  }

  ghost predicate EncoderMapIs(l: Layout, m: seq<Byte>, encoderMap: (nat, nat, bool) -> U16) {
    forall layer: nat, encoder: nat, clockwise :: layer < l.layers && encoder < l.encoders ==>
      WordAt(m, EncoderAddr(l, layer, encoder, clockwise)) == encoderMap(layer, encoder, clockwise)
  }

  /** Layout options, keymap, encoder map and macros all have their reset values. */
  ghost predicate IsReset(l: Layout, fw: Firmware, m: seq<Byte>)
    requires Separate(l, |m|)
  {
    && ReadOptions(m, l.OptionsAddr(), l.optionsSize) == fw.options % Pow256(l.optionsSize)
    && KeymapIs(l, m, fw.keymap)
    && EncoderMapIs(l, m, fw.encoderMap)
    && (forall a: nat :: In(a, l.macroAddr, l.macroSize) ==> m[a] == 0)
  }

  // ---------- where the writes go ----------

  ghost predicate In(a: nat, start: nat, size: nat) {
    start <= a < start + size
  }

  ghost function OptionByte(size: nat, value: U32, i: nat): Byte
    requires i < size
  {
    if i == size - 1 then value % 256 else OptionByte(size - 1, value / 256, i)
  }

  ghost predicate Reaches(ws: seq<Write>, a: nat) {
    exists w :: w in ws && w.addr == a
  }

  lemma {:induction false} ReachesConcat(x: seq<Write>, y: seq<Write>, a: nat)
    ensures Reaches(x + y, a) <==> Reaches(x, a) || Reaches(y, a)
  {
    assert forall w :: w in x + y <==> w in x || w in y;
  }

  lemma {:induction false} OptionWritesAre(addr: nat, size: nat, value: U32)
    ensures forall w :: w in OptionWrites(addr, size, value) ==>
              In(w.addr, addr, size) && w.value == OptionByte(size, value, w.addr - addr)
    ensures forall a: nat :: In(a, addr, size) ==> Reaches(OptionWrites(addr, size, value), a)
  {
    if size > 0 {
      OptionWritesAre(addr, size - 1, value / 256);
      var first, rest := [Write(addr + size - 1, value % 256)], OptionWrites(addr, size - 1, value / 256);
      forall a: nat | In(a, addr, size) ensures Reaches(OptionWrites(addr, size, value), a) {
        ReachesConcat(first, rest, a);
        if a == addr + size - 1 {
          assert first[0] in first;
        }
      }
    }
  }

  lemma {:induction false} OptionsRead(m: seq<Byte>, addr: nat, size: nat, value: U32)
    requires addr + size <= |m|
    requires forall a: nat :: In(a, addr, size) ==> m[a] == OptionByte(size, value, a - addr)
    ensures ReadOptions(m, addr, size) == value % Pow256(size)
  {
    if size > 0 {
      assert In(addr + size - 1, addr, size);
      forall a: nat | In(a, addr, size - 1) ensures m[a] == OptionByte(size - 1, value / 256, a - addr) {
        assert In(a, addr, size);
      }
      OptionsRead(m, addr, size - 1, value / 256);
      LastDigit(value, Pow256(size - 1));
    }
  }

  lemma {:induction false} LastDigit(value: nat, p: nat)
    requires p > 0
    ensures value / 256 % p * 256 + value % 256 == value % (256 * p)
  {
    var hi, lo := value / 256, value % 256;
    var q, r := hi / p, hi % p;
    assert hi == q * p + r;
    assert value == 256 * hi + lo == q * (256 * p) + (256 * r + lo) by {
      assert 256 * (q * p + r) == q * (256 * p) + 256 * r;
    }
    assert 256 * r + lo < 256 * p;
    Quotient(q, 256 * r + lo, 256 * p);
  }

  // ---------- the keymap writes ----------

  ghost function KeymapByte(l: Layout, fw: Firmware, o: nat): Byte {
    var size := l.LayerBytes();
    if size == 0 then 0 else LayerByte(l, fw, Div(o, size), Mod(o, size))
  }

  ghost function EncoderByte(l: Layout, fw: Firmware, o: nat): Byte {
    var size := l.encoders * 4;
    if size == 0 then 0 else
    var i := Mod(o, size);
    Half(fw.encoderMap(Div(o, size), i / 4, i % 4 < 2), i)
  }

  /** A write of the keymap or of the encoder map, carrying the right byte. */
  ghost predicate IsMapWrite(l: Layout, fw: Firmware, w: Write) {
    || (In(w.addr, l.keymapAddr, l.KeymapBytes()) && w.value == KeymapByte(l, fw, w.addr - l.keymapAddr))
    || (In(w.addr, l.encoderAddr, l.EncoderBytes()) && w.value == EncoderByte(l, fw, w.addr - l.encoderAddr))
  }

  lemma {:induction false} KeymapByteOf(l: Layout, fw: Firmware, layer: nat, i: nat)
    requires i < l.LayerBytes()
    ensures KeymapByte(l, fw, layer * l.LayerBytes() + i) == LayerByte(l, fw, layer, i)
  {
    Quotient(layer, i, l.LayerBytes());
    hide Div;
    hide Mod;
    hide LayerByte;
  }

  lemma {:induction false} BlockReaches(start: nat, data: seq<Byte>)
    ensures forall a: nat :: In(a, start, |data|) ==> Reaches(BlockWrites(start, data), a)
  {
    var ws := BlockWrites(start, data);
    forall a: nat | In(a, start, |data|) ensures Reaches(ws, a) {
      assert ws[a - start] in ws && ws[a - start].addr == a;
    }
  }

  lemma {:induction false} LayerImageWrites(l: Layout, fw: Firmware, layer: nat)
    requires layer < l.layers
    ensures var start := l.keymapAddr + layer * l.LayerBytes();
            var ws := BlockWrites(start, LayerImage(l, fw, layer));
            && (forall w :: w in ws ==> IsMapWrite(l, fw, w))
            && (forall a: nat :: In(a, start, l.LayerBytes()) ==> Reaches(ws, a))
  {
    var size := l.LayerBytes();
    var start := l.keymapAddr + layer * size;
    var ws := BlockWrites(start, LayerImage(l, fw, layer));
    BlockReaches(start, LayerImage(l, fw, layer));
    ScaledBelow(layer, l.layers, size);
    hide LayerByte;
    hide KeymapByte;
    forall i | 0 <= i < |ws| ensures IsMapWrite(l, fw, ws[i]) {
      KeymapByteOf(l, fw, layer, i);
      assert ws[i] == Write(start + i, LayerByte(l, fw, layer, i));
    }
  }

  lemma {:induction false} EncoderByteOf(l: Layout, fw: Firmware, layer: nat, encoder: nat, i: nat)
    requires encoder < l.encoders && i < 4
    ensures EncoderByte(l, fw, layer * (l.encoders * 4) + (encoder * 4 + i))
         == Half(fw.encoderMap(layer, encoder, i < 2), i)
  {
    Quotient(layer, encoder * 4 + i, l.encoders * 4);
    Quarter(encoder, i);
    hide Div;
    hide Mod;
  }

  lemma {:induction false} Quarter(n: nat, i: nat)
    requires i < 4
    ensures (n * 4 + i) / 4 == n && (n * 4 + i) % 4 == i
    ensures forall kc :: Half(kc, n * 4 + i) == Half(kc, i)
  {
  }

  lemma {:induction false} EncoderMapWrite(l: Layout, fw: Firmware, layer: nat, encoder: nat, i: nat)
    requires layer < l.layers && encoder < l.encoders && i < 4
    ensures var addr := l.encoderAddr + layer * (l.encoders * 4) + encoder * 4 + i;
            addr >= 0 && IsMapWrite(l, fw, Write(addr, Half(fw.encoderMap(layer, encoder, i < 2), i)))
  {
    ScaledBelow(layer, l.layers, l.encoders * 4);
    ScaledBelow(encoder, l.encoders, 4);
    EncoderByteOf(l, fw, layer, encoder, i);
    hide EncoderByte;
  }

  lemma {:induction false} OneEncoderWrites(l: Layout, fw: Firmware, layer: nat, encoder: nat)
    requires layer < l.layers && encoder < l.encoders
    ensures var ws := EncoderWrites(l, fw, layer, encoder);
            var start := l.encoderAddr + layer * (l.encoders * 4) + encoder * 4;
            && (forall w :: w in ws ==> IsMapWrite(l, fw, w))
            && (forall a: nat :: In(a, start, 4) ==> Reaches(ws, a))
  {
    hide EncoderByte, IsMapWrite;
    var ws := EncoderWrites(l, fw, layer, encoder);
    var start := l.encoderAddr + layer * (l.encoders * 4) + encoder * 4;
    forall i: nat | i < 4 ensures IsMapWrite(l, fw, ws[i]) && ws[i].addr == start + i {
      EncoderMapWrite(l, fw, layer, encoder, i);
    }
    forall a: nat | In(a, start, 4) ensures Reaches(ws, a) {
      assert ws[a - start] in ws;
    }
  }

  lemma {:induction false} EncodersWritesAre(l: Layout, fw: Firmware, layer: nat, n: nat)
    requires layer < l.layers && n <= l.encoders
    ensures var ws := EncodersWrites(l, fw, layer, n);
            var start := l.encoderAddr + layer * (l.encoders * 4);
            && (forall w :: w in ws ==> IsMapWrite(l, fw, w))
            && (forall a: nat :: In(a, start, n * 4) ==> Reaches(ws, a))
  {
    if n > 0 {
      var start := l.encoderAddr + layer * (l.encoders * 4);
      EncodersWritesAre(l, fw, layer, n - 1);
      OneEncoderWrites(l, fw, layer, n - 1);
      forall a: nat | In(a, start, n * 4) ensures Reaches(EncodersWrites(l, fw, layer, n), a) {
        ReachesConcat(EncodersWrites(l, fw, layer, n - 1), EncoderWrites(l, fw, layer, n - 1), a);
        assert In(a, start, (n - 1) * 4) || In(a, start + (n - 1) * 4, 4);
      }
    }
  }

  lemma {:induction false} OneMoreTime(n: nat, unit: nat)
    requires n > 0
    ensures n * unit == (n - 1) * unit + unit
  {
  }

  /** The reset of the first `n` layers writes only map bytes. */
  lemma {:induction false} KeymapWritesAre(l: Layout, fw: Firmware, n: nat)
    requires n <= l.layers
    ensures forall w :: w in KeymapWrites(l, fw, n) ==> IsMapWrite(l, fw, w)
  {
    if n > 0 {
      KeymapWritesAre(l, fw, n - 1);
      LayerWritesAre(l, fw, n - 1);
      hide LayerWrites;
      hide IsMapWrite;
    }
  }

  lemma {:induction false} NextUnit(start: nat, n: nat, unit: nat, a: nat)
    requires n > 0 && In(a, start, n * unit)
    ensures In(a, start, (n - 1) * unit) || In(a, start + (n - 1) * unit, unit)
  {
    OneMoreTime(n, unit);
  }

  lemma {:induction false} NothingIn(a: nat, start: nat)
    ensures !In(a, start, 0)
  {
  }

  lemma {:induction false} LastLayer(l: Layout, fw: Firmware, n: nat)
    requires n > 0
    ensures KeymapWrites(l, fw, n) == KeymapWrites(l, fw, n - 1) + LayerWrites(l, fw, n - 1)
  {
  }

  lemma {:induction false} LayerReaches(l: Layout, fw: Firmware, layer: nat, lb: nat, eb: nat, a: nat)
    requires layer < l.layers && lb == l.LayerBytes() && eb == l.encoders * 4
    ensures In(a, l.keymapAddr + layer * lb, lb) || In(a, l.encoderAddr + layer * eb, eb)
            ==> Reaches(LayerWrites(l, fw, layer), a)
  {
    LayerWritesAre(l, fw, layer);
  }

  /** The reset of the first `n` layers writes every byte of these layers. */
  lemma {:induction false} KeymapWritesReach(l: Layout, fw: Firmware, n: nat, lb: nat, eb: nat, a: nat)
    requires n <= l.layers && lb == l.LayerBytes() && eb == l.encoders * 4
    requires In(a, l.keymapAddr, n * lb) || In(a, l.encoderAddr, n * eb)
    ensures Reaches(KeymapWrites(l, fw, n), a)
  {
    hide *;
    if n == 0 {
      assert n * lb == 0 && n * eb == 0;
      NothingIn(a, l.keymapAddr);
      NothingIn(a, l.encoderAddr);
    } else {
      LayerReaches(l, fw, n - 1, lb, eb, a);
      LastLayer(l, fw, n);
      ReachesConcat(KeymapWrites(l, fw, n - 1), LayerWrites(l, fw, n - 1), a);
      if In(a, l.keymapAddr, n * lb) {
        NextUnit(l.keymapAddr, n, lb, a);
      } else {
        NextUnit(l.encoderAddr, n, eb, a);
      }
      if In(a, l.keymapAddr, (n - 1) * lb) || In(a, l.encoderAddr, (n - 1) * eb) {
        KeymapWritesReach(l, fw, n - 1, lb, eb, a);
      }
    }
  }

  lemma {:induction false} LayerWritesAre(l: Layout, fw: Firmware, layer: nat)
    requires layer < l.layers
    ensures var ws := LayerWrites(l, fw, layer);
            && (forall w :: w in ws ==> IsMapWrite(l, fw, w))
            && (forall a: nat :: In(a, l.keymapAddr + layer * l.LayerBytes(), l.LayerBytes()) ==> Reaches(ws, a))
            && (forall a: nat :: In(a, l.encoderAddr + layer * (l.encoders * 4), l.encoders * 4) ==> Reaches(ws, a))
  {
    var start := l.keymapAddr + layer * l.LayerBytes();
    var image, encoders := BlockWrites(start, LayerImage(l, fw, layer)), EncodersWrites(l, fw, layer, l.encoders);
    LayerImageWrites(l, fw, layer);
    EncodersWritesAre(l, fw, layer, l.encoders);
    forall a ensures Reaches(image + encoders, a) <==> Reaches(image, a) || Reaches(encoders, a) {
      ReachesConcat(image, encoders, a);
    }
  }

  // ---------- after the reset ----------

  ghost predicate IsData(l: Layout, a: nat) {
    || In(a, l.OptionsAddr(), l.optionsSize)
    || In(a, l.keymapAddr, l.KeymapBytes())
    || In(a, l.encoderAddr, l.EncoderBytes())
    || In(a, l.macroAddr, l.macroSize)
  }

  /** The reset value of a data byte. */
  ghost function ResetByte(l: Layout, fw: Firmware, a: nat): Byte {
    if In(a, l.OptionsAddr(), l.optionsSize) then OptionByte(l.optionsSize, fw.options, a - l.OptionsAddr())
    else if In(a, l.keymapAddr, l.KeymapBytes()) then KeymapByte(l, fw, a - l.keymapAddr)
    else if In(a, l.encoderAddr, l.EncoderBytes()) then EncoderByte(l, fw, a - l.encoderAddr)
    else 0
  }

  /** A write of the right reset byte, outside the magic. */
  ghost predicate IsResetWrite(l: Layout, fw: Firmware, size: nat, w: Write) {
    IsData(l, w.addr) && w.addr < size && !In(w.addr, l.magicAddr, 3) && w.value == ResetByte(l, fw, w.addr)
  }

  lemma {:induction false} RegionWriteResets(l: Layout, fw: Firmware, size: nat, w: Write)
    requires Separate(l, size)
    requires || (In(w.addr, l.OptionsAddr(), l.optionsSize)
                 && w.value == OptionByte(l.optionsSize, fw.options, w.addr - l.OptionsAddr()))
             || IsMapWrite(l, fw, w)
             || (In(w.addr, l.macroAddr, l.macroSize) && w.value == 0)
    ensures IsResetWrite(l, fw, size, w)
  {
    hide OptionByte;
    hide KeymapByte;
    hide EncoderByte;
    hide Layout.KeymapBytes;
    hide Layout.EncoderBytes;
  }

  lemma {:induction false} DataWritesAre(l: Layout, fw: Firmware, size: nat)
    requires Separate(l, size)
    ensures forall w :: w in DataWrites(l, fw) ==> IsResetWrite(l, fw, size, w)
  {
    var options, maps, macros := OptionWrites(l.OptionsAddr(), l.optionsSize, fw.options),
                                 KeymapWrites(l, fw, l.layers), MacroWrites(l.macroAddr, l.macroSize);
    OptionWritesAre(l.OptionsAddr(), l.optionsSize, fw.options);
    KeymapWritesAre(l, fw, l.layers);
    assert forall w :: w in macros ==> In(w.addr, l.macroAddr, l.macroSize) && w.value == 0;
    hide KeymapWrites;
    hide OptionWrites;
    hide OptionByte;
    hide MacroWrites;
    hide IsMapWrite;
    hide IsResetWrite;
    hide Separate;
    hide In;
    forall w | w in DataWrites(l, fw) ensures IsResetWrite(l, fw, size, w) {
      assert w in options || w in maps || w in macros;
      RegionWriteResets(l, fw, size, w);
    }
  }

  lemma {:induction false} DataWritesReach(l: Layout, fw: Firmware, a: nat)
    requires IsData(l, a)
    ensures Reaches(DataWrites(l, fw), a)
  {
    var options, maps, macros := OptionWrites(l.OptionsAddr(), l.optionsSize, fw.options),
                                 KeymapWrites(l, fw, l.layers), MacroWrites(l.macroAddr, l.macroSize);
    OptionWritesAre(l.OptionsAddr(), l.optionsSize, fw.options);
    BlockReaches(l.macroAddr, seq(l.macroSize, _ => 0));
    if In(a, l.keymapAddr, l.KeymapBytes()) || In(a, l.encoderAddr, l.EncoderBytes()) {
      KeymapWritesReach(l, fw, l.layers, l.LayerBytes(), l.encoders * 4, a);
    }
    hide KeymapWrites;
    hide OptionWrites;
    hide Reaches;
    ReachesConcat(options + maps, macros, a);
    ReachesConcat(options, maps, a);
  }

  ghost predicate DataReset(l: Layout, fw: Firmware, m: seq<Byte>) {
    forall a: nat :: IsData(l, a) ==> a < |m| && m[a] == ResetByte(l, fw, a)
  }

  lemma {:induction false} CellReset(l: Layout, fw: Firmware, m: seq<Byte>, layer: nat, row: nat, col: nat)
    requires Separate(l, |m|) && DataReset(l, fw, m) && InKeymap(l, layer, row, col)
    ensures WordAt(m, CellAddr(l, layer, row, col)) == fw.keymap(layer, row, col)
  {
    hide KeymapByte, Layout.KeymapBytes, Layout.LayerBytes, Layout.EncoderBytes, CellAddr;
    assert forall a: nat :: In(a, l.keymapAddr, l.KeymapBytes()) ==> IsData(l, a);
    CellHolds(l, fw, m, layer, row, col);
  }

  /** A cell whose region holds the keymap image holds its keycode. */
  lemma {:induction false} CellHolds(l: Layout, fw: Firmware, m: seq<Byte>, layer: nat, row: nat, col: nat)
    requires l.keymapAddr + l.KeymapBytes() <= |m| && InKeymap(l, layer, row, col)
    requires forall a: nat :: In(a, l.keymapAddr, l.KeymapBytes()) ==> m[a] == KeymapByte(l, fw, a - l.keymapAddr)
    ensures WordAt(m, CellAddr(l, layer, row, col)) == fw.keymap(layer, row, col)
  {
    var i, a := (row * l.cols + col) * 2, CellAddr(l, layer, row, col);
    CellInside(l, layer, row, col);
    KeymapByteOf(l, fw, layer, i);
    KeymapByteOf(l, fw, layer, i + 1);
    ScaledBelow(layer, l.layers, l.LayerBytes());
    assert (i + 1) / 2 == row * l.cols + col;
    hide Div;
    hide Mod;
    hide KeymapByte;
    hide Layout.KeymapBytes;
    hide Layout.LayerBytes;
    hide Layout.EncoderBytes;
    assert In(a, l.keymapAddr, l.KeymapBytes()) && In(a + 1, l.keymapAddr, l.KeymapBytes());
  }

  lemma {:induction false} EncoderReset(l: Layout, fw: Firmware, m: seq<Byte>, layer: nat, encoder: nat,
                                        clockwise: bool)
    requires Separate(l, |m|) && DataReset(l, fw, m) && layer < l.layers && encoder < l.encoders
    ensures WordAt(m, EncoderAddr(l, layer, encoder, clockwise)) == fw.encoderMap(layer, encoder, clockwise)
  {
    var i, a := if clockwise then 0 else 2, EncoderAddr(l, layer, encoder, clockwise);
    EncoderInside(l, layer, encoder, clockwise);
    EncoderByteOf(l, fw, layer, encoder, i);
    EncoderByteOf(l, fw, layer, encoder, i + 1);
    hide EncoderByte;
    hide Layout.KeymapBytes;
    hide Layout.LayerBytes;
    hide Layout.EncoderBytes;
    assert IsData(l, a) && IsData(l, a + 1);
  }

  lemma {:induction false} DataResetIsReset(l: Layout, fw: Firmware, m: seq<Byte>)
    requires Separate(l, |m|) && DataReset(l, fw, m)
    ensures IsReset(l, fw, m)
  {
    assert forall a: nat :: In(a, l.OptionsAddr(), l.optionsSize) ==> IsData(l, a);
    OptionsRead(m, l.OptionsAddr(), l.optionsSize, fw.options);
    forall layer: nat, row: nat, col: nat | InKeymap(l, layer, row, col)
      ensures WordAt(m, CellAddr(l, layer, row, col)) == fw.keymap(layer, row, col)
    {
      CellReset(l, fw, m, layer, row, col);
    }
    forall layer: nat, encoder: nat, clockwise | layer < l.layers && encoder < l.encoders
      ensures WordAt(m, EncoderAddr(l, layer, encoder, clockwise)) == fw.encoderMap(layer, encoder, clockwise)
    {
      EncoderReset(l, fw, m, layer, encoder, clockwise);
    }
    assert forall a: nat :: In(a, l.macroAddr, l.macroSize) ==> IsData(l, a);
  }

  // ---------- power failures ----------

  lemma {:induction false} InitFits(l: Layout, fw: Firmware, size: nat)
    requires Separate(l, size)
    ensures Fits(InitWrites(l, fw), size)
    ensures Fits(MagicWrites(l, fw, false), size) && Fits(MagicWrites(l, fw, true), size)
    ensures Fits(DataWrites(l, fw), size)
  {
    DataWritesAre(l, fw, size);
    var f, d, t := MagicWrites(l, fw, false), DataWrites(l, fw), MagicWrites(l, fw, true);
    hide DataWrites;
    hide ResetByte;
    hide Layout.KeymapBytes;
    hide Layout.EncoderBytes;
    hide IsData;
    assert Fits(f, size) && Fits(t, size);
    hide MagicWrites;
    hide Separate;
    assert forall w :: w in InitWrites(l, fw) ==> w in f || w in d || w in t;
  }

  /** The memory when the power fails after `k` of the byte writes of eeconfig_init_via. */
  ghost function Interrupted(l: Layout, fw: Firmware, m: seq<Byte>, k: nat): (m': seq<Byte>)
    requires Separate(l, |m|) && k <= |InitWrites(l, fw)|
    ensures |m'| == |m|
  {
    InitFits(l, fw, |m|);
    Apply(m, InitWrites(l, fw)[..k])
  }

  lemma {:induction false} PrefixSplits(m: seq<Byte>, a: seq<Write>, b: seq<Write>, k: nat)
    requires Fits(a, |m|) && Fits(b, |m|) && |a| <= k <= |a| + |b|
    ensures Fits((a + b)[..k], |m|)
    ensures Apply(m, (a + b)[..k]) == Apply(Apply(m, a), b[..k - |a|])
  {
    assert (a + b)[..k] == a + b[..k - |a|];
    ApplyConcat(m, a, b[..k - |a|]);
  }

  lemma {:induction false} PrefixFits(ws: seq<Write>, k: nat, size: nat)
    requires Fits(ws, size) && k <= |ws|
    ensures Fits(ws[..k], size)
  {
  }

  /** Data that is all reset stays so while the magic is written. */
  lemma {:induction false} MagicKeepsData(l: Layout, fw: Firmware, m: seq<Byte>, valid: bool, k: nat)
    requires Separate(l, |m|) && k <= 3 && DataReset(l, fw, m)
    ensures Fits(MagicWrites(l, fw, valid)[..k], |m|)
    ensures DataReset(l, fw, Apply(m, MagicWrites(l, fw, valid)[..k]))
  {
    var ws := MagicWrites(l, fw, valid)[..k];
    hide ResetByte;
    hide Layout.KeymapBytes;
    hide Layout.EncoderBytes;
    assert forall w :: w in ws ==> In(w.addr, l.magicAddr, 3);
    forall a: nat | IsData(l, a) ensures a < |m| && Apply(m, ws)[a] == ResetByte(l, fw, a) {
      Untouched(m, ws, a);
    }
  }

  lemma {:induction false} DataIsReset(l: Layout, fw: Firmware, m: seq<Byte>)
    requires Separate(l, |m|)
    ensures Fits(DataWrites(l, fw), |m|)
    ensures DataReset(l, fw, Apply(m, DataWrites(l, fw)))
  {
    InitFits(l, fw, |m|);
    DataWritesAre(l, fw, |m|);
    hide ResetByte;
    hide DataWrites;
    hide Layout.KeymapBytes;
    hide Layout.EncoderBytes;
    forall a: nat | IsData(l, a) ensures a < |m| && Apply(m, DataWrites(l, fw))[a] == ResetByte(l, fw, a) {
      DataWritesReach(l, fw, a);
      Settles(m, DataWrites(l, fw), a, ResetByte(l, fw, a));
    }
  }

  /** While the data is written the first magic byte stays erased. */
  lemma {:induction false} ErasedWhileWriting(l: Layout, fw: Firmware, m: seq<Byte>, k: nat)
    requires Separate(l, |m|) && k <= |DataWrites(l, fw)|
    ensures Fits(DataWrites(l, fw)[..k], |m|)
    ensures l.magicAddr < |m| && Apply(m, DataWrites(l, fw)[..k])[l.magicAddr] == m[l.magicAddr]
  {
    InitFits(l, fw, |m|);
    DataWritesAre(l, fw, |m|);
    hide DataWrites;
    hide ResetByte;
    hide IsData;
    hide Layout.KeymapBytes;
    hide Layout.EncoderBytes;
    PrefixFits(DataWrites(l, fw), k, |m|);
    var ws := DataWrites(l, fw)[..k];
    assert forall w :: w in ws ==> w in DataWrites(l, fw);
    assert forall w :: w in ws ==> !In(w.addr, l.magicAddr, 3);
    Untouched(m, ws, l.magicAddr);
  }

  lemma {:induction false} EraseMagic(l: Layout, fw: Firmware, m: seq<Byte>, k: nat)
    requires Separate(l, |m|) && k <= 3
    ensures Fits(MagicWrites(l, fw, false)[..k], |m|)
    ensures l.magicAddr < |m| && (k > 0 ==> Apply(m, MagicWrites(l, fw, false)[..k])[l.magicAddr] == 0xFF)
  {
    var ws := MagicWrites(l, fw, false)[..k];
    assert forall w :: w in ws ==> w.addr < |m| && (w.addr == l.magicAddr ==> w.value == 0xFF);
    if k > 0 {
      assert ws[0] in ws && ws[0].addr == l.magicAddr;
      Settles(m, ws, l.magicAddr, 0xFF);
    }
  }

  /** The three phases of an interrupted initialisation: nothing written, the magic still erased, or all
      data reset. */
  lemma {:induction false} Phases(l: Layout, fw: Firmware, m: seq<Byte>, k: nat)
    requires Separate(l, |m|) && k <= |InitWrites(l, fw)|
    ensures var m' := Interrupted(l, fw, m, k);
            || (k == 0 && m' == m)
            || (k <= 3 + |DataWrites(l, fw)| && l.magicAddr < |m| && m'[l.magicAddr] == 0xFF)
            || (k > 3 + |DataWrites(l, fw)| && DataReset(l, fw, m'))
  {
    hide DataWrites, MagicWrites, Apply, Separate, DataReset;
    InitFits(l, fw, |m|);
    var f, d, t := MagicWrites(l, fw, false), DataWrites(l, fw), MagicWrites(l, fw, true);
    MagicLength(l, fw);
    if k == 0 {
      assert InitWrites(l, fw)[..0] == [];
      NothingApplied(m);
    } else if k <= 3 {
      assert InitWrites(l, fw)[..k] == f[..k];
      EraseMagic(l, fw, m, k);
    } else {
      EraseMagic(l, fw, m, 3);
      assert f[..3] == f;
      var m1 := Apply(m, f);
      if k <= 3 + |d| {
        assert InitWrites(l, fw)[..k] == (f + d)[..k];
        PrefixSplits(m, f, d, k);
        ErasedWhileWriting(l, fw, m1, k - 3);
      } else {
        assert Fits(f + d, |m|);
        PrefixSplits(m, f + d, t, k);
        ApplyConcat(m, f, d);
        DataIsReset(l, fw, m1);
        MagicKeepsData(l, fw, Apply(m1, d), true, k - 3 - |d|);
      }
    }
  }

  lemma {:induction false} MagicLength(l: Layout, fw: Firmware)
    ensures |MagicWrites(l, fw, false)| == |MagicWrites(l, fw, true)| == 3
  {
  }

  lemma {:induction false} NothingApplied(m: seq<Byte>)
    ensures Apply(m, []) == m
  {
  }

  /** What a crash leaves is safe: if the memory then looks valid, it is either untouched or fully reset. */
  ghost predicate SafeAfter(l: Layout, fw: Firmware, m: seq<Byte>, k: nat)
    requires Separate(l, |m|) && k <= |InitWrites(l, fw)|
  {
    var m' := Interrupted(l, fw, m, k);
    MagicOk(l, fw, m') ==> m' == m || IsReset(l, fw, m')
  }

  /** Crash safety: whenever the first magic byte differs from 0xFF, stopping eeconfig_init_via after any
      number of byte writes is safe, from any memory. */
  lemma {:induction false} CrashSafe(l: Layout, fw: Firmware, m: seq<Byte>, k: nat)
    requires Separate(l, |m|) && k <= |InitWrites(l, fw)| && fw.magic.0 != 0xFF
    ensures SafeAfter(l, fw, m, k)
  {
    Phases(l, fw, m, k);
    var m' := Interrupted(l, fw, m, k);
    if DataReset(l, fw, m') {
      DataResetIsReset(l, fw, m');
    }
  }

  /** The condition cannot be dropped: if the first magic byte is 0xFF, a memory with other contents looks
      valid after one byte write. */
  lemma {:induction false} ErasedMagicIsUnsafe(l: Layout, fw: Firmware, size: nat) returns (m: seq<Byte>)
    requires Separate(l, size) && l.macroSize > 0 && fw.magic.0 == 0xFF
    ensures |m| == size && |InitWrites(l, fw)| > 0 && !SafeAfter(l, fw, m, 1)
  {
    hide Layout.KeymapBytes;
    hide Layout.EncoderBytes;
    hide DataWrites;
    var zeros: seq<Byte> := seq(size, _ => 0);
    m := zeros[l.magicAddr + 1 := fw.magic.1][l.magicAddr + 2 := fw.magic.2][l.macroAddr := 1];
    var first := Write(l.magicAddr, 0xFF);
    assert InitWrites(l, fw)[..1] == [first];
    assert Apply(m, [first]) == m[l.magicAddr := 0xFF] by {
      ApplyOne(m, [], first);
      assert [] + [first] == [first];
    }
    var m' := Interrupted(l, fw, m, 1);
    assert In(l.macroAddr, l.macroAddr, l.macroSize) && m'[l.macroAddr] == 1;
    assert m[l.magicAddr] == 0;
  }

  /** Exactly when resets are crash-safe on every memory. */
  lemma {:induction false} CrashSafeExactly(l: Layout, fw: Firmware, size: nat)
    requires Separate(l, size) && l.macroSize > 0
    ensures (forall m: seq<Byte>, k: nat :: |m| == size && k <= |InitWrites(l, fw)| ==> SafeAfter(l, fw, m, k))
       <==> fw.magic.0 != 0xFF
  {
    if fw.magic.0 != 0xFF {
      forall m: seq<Byte>, k: nat | |m| == size && k <= |InitWrites(l, fw)| ensures SafeAfter(l, fw, m, k) {
        CrashSafe(l, fw, m, k);
      }
    } else {
      var m := ErasedMagicIsUnsafe(l, fw, size);
    }
  }

  lemma {:induction false} MagicRestored(l: Layout, fw: Firmware, m: seq<Byte>)
    requires Separate(l, |m|)
    ensures Fits(MagicWrites(l, fw, true), |m|)
    ensures MagicOk(l, fw, Apply(m, MagicWrites(l, fw, true)))
  {
    hide Layout.KeymapBytes;
    hide Layout.EncoderBytes;
    var t := MagicWrites(l, fw, true);
    assert t[0] in t && t[1] in t && t[2] in t;
    Settles(m, t, l.magicAddr, fw.magic.0);
    Settles(m, t, l.magicAddr + 1, fw.magic.1);
    Settles(m, t, l.magicAddr + 2, fw.magic.2);
  }

  lemma {:induction false} AllApplied(l: Layout, fw: Firmware, m: seq<Byte>)
    requires Separate(l, |m|)
    ensures Fits(MagicWrites(l, fw, false) + DataWrites(l, fw), |m|) && Fits(MagicWrites(l, fw, true), |m|)
    ensures Interrupted(l, fw, m, |InitWrites(l, fw)|)
         == Apply(Apply(m, MagicWrites(l, fw, false) + DataWrites(l, fw)), MagicWrites(l, fw, true))
  {
    InitFits(l, fw, |m|);
    hide DataWrites;
    hide MagicWrites;
    hide Apply;
    assert InitWrites(l, fw)[..|InitWrites(l, fw)|] == InitWrites(l, fw);
    ApplyConcat(m, MagicWrites(l, fw, false) + DataWrites(l, fw), MagicWrites(l, fw, true));
  }

  lemma {:induction false} InitCompletes(l: Layout, fw: Firmware, m: seq<Byte>)
    requires Separate(l, |m|)
    ensures var m' := Interrupted(l, fw, m, |InitWrites(l, fw)|); MagicOk(l, fw, m') && IsReset(l, fw, m')
  {
    Phases(l, fw, m, |InitWrites(l, fw)|);
    assert |InitWrites(l, fw)| > 3 + |DataWrites(l, fw)|;
    AllApplied(l, fw, m);
    hide *;
    MagicRestored(l, fw, Apply(m, MagicWrites(l, fw, false) + DataWrites(l, fw)));
    DataResetIsReset(l, fw, Interrupted(l, fw, m, |InitWrites(l, fw)|));
  }

  /** One start of the firmware: via_init, cut short after `k` byte writes or run to the end. */
  ghost function Boot(l: Layout, fw: Firmware, m: seq<Byte>, k: nat): (m': seq<Byte>)
    requires Separate(l, |m|)
    ensures |m'| == |m|
  {
    if MagicOk(l, fw, m) then m
    else Interrupted(l, fw, m, if k <= |InitWrites(l, fw)| then k else |InitWrites(l, fw)|)
  }

  ghost function Boots(l: Layout, fw: Firmware, m: seq<Byte>, ks: seq<nat>): (m': seq<Byte>)
    requires Separate(l, |m|)
    ensures |m'| == |m|
    decreases |ks|
  {
    if ks == [] then m else Boot(l, fw, Boots(l, fw, m, ks[..|ks| - 1]), ks[|ks| - 1])
  }

  /** Any number of starts, each cut short anywhere: a memory that looks valid is the one the first start
      found, or a complete reset. */
  lemma {:induction false} BootsSafe(l: Layout, fw: Firmware, m: seq<Byte>, ks: seq<nat>)
    requires Separate(l, |m|) && fw.magic.0 != 0xFF
    ensures var m' := Boots(l, fw, m, ks);
            MagicOk(l, fw, m') ==> m' == m || IsReset(l, fw, m')
    decreases |ks|
  {
    if ks != [] {
      var m1 := Boots(l, fw, m, ks[..|ks| - 1]);
      BootsSafe(l, fw, m, ks[..|ks| - 1]);
      var k, total := ks[|ks| - 1], |InitWrites(l, fw)|;
      CrashSafe(l, fw, m1, if k <= total then k else total);
      hide InitWrites;
      hide IsReset;
    }
  }

  /** A start that is not cut short always ends valid, with the data it found valid or with a reset. */
  lemma {:induction false} BootEndsValid(l: Layout, fw: Firmware, m: seq<Byte>, k: nat)
    requires Separate(l, |m|) && k >= |InitWrites(l, fw)|
    ensures MagicOk(l, fw, Boot(l, fw, m, k))
    ensures Boot(l, fw, m, k) == m || IsReset(l, fw, Boot(l, fw, m, k))
  {
    InitCompletes(l, fw, m);
  }

  /** Reading the layout options back gives what was set, as far as the region holds it. */
  lemma {:induction false} OptionsRoundTrip(m: seq<Byte>, addr: nat, size: nat, value: U32)
    requires addr + size <= |m|
    ensures Fits(OptionWrites(addr, size, value), |m|)
    ensures ReadOptions(Apply(m, OptionWrites(addr, size, value)), addr, size) == value % Pow256(size)
  {
    OptionWritesAre(addr, size, value);
    var ws := OptionWrites(addr, size, value);
    hide OptionWrites;
    hide OptionByte;
    forall a: nat | In(a, addr, size) ensures Apply(m, ws)[a] == OptionByte(size, value, a - addr) {
      Settles(m, ws, a, OptionByte(size, value, a - addr));
    }
    OptionsRead(Apply(m, ws), addr, size, value);
  }
}
