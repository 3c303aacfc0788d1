/** quantum/via.c and the reset functions of quantum/dynamic_keymap.c as they run, byte write by byte write.
    Each method is proved to issue the writes module Via reasons about. */
module ViaDriver {

  import opened Widths
  import opened Modular
  import opened Eeprom
  import opened Via

  lemma {:induction false} WroteOne(mem: Memory, m: seq<Byte>, before: seq<Write>, ws: seq<Write>, w: Write)
    requires Fits(ws, |m|) && w.addr < |m|
    requires mem.bytes[..] == Apply(m, ws)[w.addr := w.value] && mem.log == before + ws + [w]
    ensures mem.Wrote(m, before, ws + [w])
  {
    ApplyOne(m, ws, w);
  }

  lemma {:induction false} OptionsNext(addr: nat, size: nat, value: U32)
    requires size > 0
    ensures OptionWrites(addr, size, value)
              == [Write(addr + size - 1, value % 256)] + OptionWrites(addr, size - 1, value / 256)
  {
  }

  lemma {:induction false} NoOptions(addr: nat, value: U32)
    ensures OptionWrites(addr, 0, value) == []
  {
  }

  lemma {:induction false} OptionsBelow(m: seq<Byte>, addr: nat, size: nat)
    requires addr + size <= |m|
    ensures ReadOptions(m, addr, size) < Pow256(size)
  {
    if size > 0 {
      OptionsBelow(m, addr, size - 1);
    }
  }

  class Driver {
    const l: Layout
    const fw: Firmware
    const mem: Memory

    constructor (l: Layout, fw: Firmware, mem: Memory)
      ensures this.l == l && this.fw == fw && this.mem == mem
    {
      this.l, this.fw, this.mem := l, fw, mem;
    }

    ghost predicate Valid()
      reads mem
    {
      Separate(l, mem.bytes.Length) && l.optionsSize <= 4
    }

    method ViaEepromIsValid() returns (ok: bool)
      requires Valid()
      ensures ok == MagicOk(l, fw, mem.bytes[..])
    {
      var b0 := mem.ReadByte(l.magicAddr);
      var b1 := mem.ReadByte(l.magicAddr + 1);
      var b2 := mem.ReadByte(l.magicAddr + 2);
      ok := b0 == fw.magic.0 && b1 == fw.magic.1 && b2 == fw.magic.2;
    }

    method ViaEepromSetValid(valid: bool)
      requires Valid()
      modifies mem, mem.bytes
      ensures mem.Wrote(old(mem.bytes[..]), old(mem.log), MagicWrites(l, fw, valid))
    {
      ghost var m, before := mem.bytes[..], mem.log;
      ghost var ws := MagicWrites(l, fw, valid);
      hide Layout.KeymapBytes;
      hide Layout.EncoderBytes;
      mem.UpdateByte(l.magicAddr, if valid then fw.magic.0 else 0xFF);
      WroteOne(mem, m, before, [], ws[0]);
      mem.UpdateByte(l.magicAddr + 1, if valid then fw.magic.1 else 0xFF);
      WroteOne(mem, m, before, [] + [ws[0]], ws[1]);
      mem.UpdateByte(l.magicAddr + 2, if valid then fw.magic.2 else 0xFF);
      WroteOne(mem, m, before, [] + [ws[0]] + [ws[1]], ws[2]);
      assert [] + [ws[0]] + [ws[1]] + [ws[2]] == ws;
    }

    /** Reads the layout options back, most significant byte first. */
    method ViaGetLayoutOptions() returns (value: U32)
      requires Valid()
      ensures value == ReadOptions(mem.bytes[..], l.OptionsAddr(), l.optionsSize)
    {
      value := 0;
      var source := l.OptionsAddr();
      for i := 0 to l.optionsSize
        invariant source == l.OptionsAddr() + i
        invariant value == ReadOptions(mem.bytes[..], l.OptionsAddr(), i)
      {
        OptionsBelow(mem.bytes[..], l.OptionsAddr(), i + 1);
        assert Pow256(i + 1) <= Pow256(4) == 0x1_0000_0000;
        var b := mem.ReadByte(source);
        value := value * 256 + b;
        source := source + 1;
      }
    }

    method ViaSetLayoutOptions(value: U32)
      requires Valid()
      modifies mem, mem.bytes
      ensures mem.Wrote(old(mem.bytes[..]), old(mem.log), OptionWrites(l.OptionsAddr(), l.optionsSize, value))
    {
      hide OptionWrites;
      ghost var m, before, ws := mem.bytes[..], mem.log, [];
      LeadsNowhere(m, before);
      var rest := value;
      var target := l.OptionsAddr() + l.optionsSize - 1;
      for i := 0 to l.optionsSize
        invariant target == l.OptionsAddr() + l.optionsSize - 1 - i
        invariant mem.Wrote(m, before, ws)
        invariant OptionWrites(l.OptionsAddr(), l.optionsSize, value)
               == ws + OptionWrites(l.OptionsAddr(), l.optionsSize - i, rest)
      {
        OptionsNext(l.OptionsAddr(), l.optionsSize - i, rest);
        mem.UpdateByte(target, rest % 256);
        WroteOne(mem, m, before, ws, Write(target, rest % 256));
        ws := ws + [Write(target, rest % 256)];
        rest := rest / 256;
        target := target - 1;
      }
      NoOptions(l.OptionsAddr(), rest);
      assert ws + [] == ws;
    }

    /** dynamic_keymap_set_encoder */
    method SetEncoder(layer: nat, encoder: nat, clockwise: bool, keycode: U16)
      requires Valid()
      modifies mem, mem.bytes
      ensures var addr := EncoderAddr(l, layer, encoder, clockwise);
              mem.Wrote(old(mem.bytes[..]), old(mem.log),
                        if layer >= l.layers || encoder >= l.encoders then []
                        else [Write(addr, High(keycode)), Write(addr + 1, Low(keycode))])
    {
      if layer >= l.layers || encoder >= l.encoders {
        return;
      }
      ghost var m, before := mem.bytes[..], mem.log;
      EncoderInside(l, layer, encoder, clockwise);
      var addr := EncoderAddr(l, layer, encoder, clockwise);
      hide EncoderAddr;
      hide Layout.KeymapBytes;
      hide Layout.EncoderBytes;
      mem.UpdateByte(addr, High(keycode));
      WroteOne(mem, m, before, [], Write(addr, High(keycode)));
      mem.UpdateByte(addr + 1, Low(keycode));
      WroteOne(mem, m, before, [] + [Write(addr, High(keycode))], Write(addr + 1, Low(keycode)));
      assert [] + [Write(addr, High(keycode))] + [Write(addr + 1, Low(keycode))]
          == [Write(addr, High(keycode)), Write(addr + 1, Low(keycode))];
    }

    /** A row by row copy of one layer in flash, with the bytes of every keycode exchanged. */
    method SwappedLayer(layer: nat) returns (temp: array2<U16>)
      ensures temp.Length0 == l.rows && temp.Length1 == l.cols && fresh(temp)
      ensures forall r, c :: 0 <= r < l.rows && 0 <= c < l.cols ==> temp[r, c] == Swapped(fw.keymap(layer, r, c))
    {
      temp := new U16[l.rows, l.cols];
      hide Swapped;
      for row := 0 to l.rows
        invariant forall r, c :: 0 <= r < row && 0 <= c < l.cols ==> temp[r, c] == Swapped(fw.keymap(layer, r, c))
      {
        for col := 0 to l.cols
          invariant forall r, c :: 0 <= r < row && 0 <= c < l.cols ==> temp[r, c] == Swapped(fw.keymap(layer, r, c))
          invariant forall c :: 0 <= c < col ==> temp[row, c] == Swapped(fw.keymap(layer, row, c))
        {
          temp[row, col] := Swapped(fw.keymap(layer, row, col));
        }
      }
    }

    /** The bytes of that copy as the processor holds them, little endian: the layer, big endian. */
    method BytesOf(temp: array2<U16>, layer: nat) returns (data: seq<Byte>)
      requires temp.Length0 == l.rows && temp.Length1 == l.cols
      requires forall r, c :: 0 <= r < l.rows && 0 <= c < l.cols ==> temp[r, c] == Swapped(fw.keymap(layer, r, c))
      ensures data == LayerImage(l, fw, layer)
    {
      data := [];
      ghost var image := LayerImage(l, fw, layer);
      assert |image| == l.LayerBytes();
      hide LayerImage;
      hide Div;
      for i := 0 to l.rows * l.cols * 2
        invariant data == image[..i]
      {
        CellOfByte(l.rows, l.cols, i);
        var word := temp[Div(i / 2, l.cols), Mod(i / 2, l.cols)];
        var byte := if i % 2 == 0 then Low(word) else High(word);
        ImageByte(l, fw, layer, i);
        assert byte == LayerByte(l, fw, layer, i);
        data := data + [byte];
      }
    }

    /** dynamic_keymap_reset */
    method DynamicKeymapReset()
      requires Valid()
      modifies mem, mem.bytes
      ensures mem.Wrote(old(mem.bytes[..]), old(mem.log), KeymapWrites(l, fw, l.layers))
    {
      ghost var m, before := mem.bytes[..], mem.log;
      LeadsNowhere(m, before);
      hide Leads;
      hide LayerWrites;
      for layer := 0 to l.layers
        invariant mem.Wrote(m, before, KeymapWrites(l, fw, layer))
      {
        ghost var m1, log1 := mem.bytes[..], mem.log;
        ResetLayer(layer);
        LeadsOn(m, before, KeymapWrites(l, fw, layer), m1, log1, LayerWrites(l, fw, layer), mem.bytes[..], mem.log);
      }
    }

    method ResetLayer(layer: nat)
      requires Valid() && layer < l.layers
      modifies mem, mem.bytes
      ensures mem.Wrote(old(mem.bytes[..]), old(mem.log), LayerWrites(l, fw, layer))
    {
      hide LayerImage, Leads, Layout.LayerBytes, Layout.KeymapBytes, Layout.EncoderBytes;
      ghost var m, before := mem.bytes[..], mem.log;
      var temp := SwappedLayer(layer);
      var data := BytesOf(temp, layer);
      LayerImageLength(l, fw, layer);
      LayerFits(l, layer);
      mem.UpdateBlock(data, l.keymapAddr + layer * l.LayerBytes());
      ghost var m1, log1 := mem.bytes[..], mem.log;
      ghost var image := BlockWrites(l.keymapAddr + layer * l.LayerBytes(), data);
      ResetEncoders(layer);
      LeadsOn(m, before, image, m1, log1, EncodersWrites(l, fw, layer, l.encoders), mem.bytes[..], mem.log);
    }

    method ResetEncoders(layer: nat)
      requires Valid() && layer < l.layers
      modifies mem, mem.bytes
      ensures mem.Wrote(old(mem.bytes[..]), old(mem.log), EncodersWrites(l, fw, layer, l.encoders))
    {
      ghost var m, before := mem.bytes[..], mem.log;
      LeadsNowhere(m, before);
      hide Leads;
      hide EncoderWrites;
      for encoder := 0 to l.encoders
        invariant mem.Wrote(m, before, EncodersWrites(l, fw, layer, encoder))
      {
        ghost var m1, log1 := mem.bytes[..], mem.log;
        ResetEncoder(layer, encoder);
        LeadsOn(m, before, EncodersWrites(l, fw, layer, encoder), m1, log1, EncoderWrites(l, fw, layer, encoder),
                mem.bytes[..], mem.log);
      }
    }

    method ResetEncoder(layer: nat, encoder: nat)
      requires Valid() && layer < l.layers && encoder < l.encoders
      modifies mem, mem.bytes
      ensures mem.Wrote(old(mem.bytes[..]), old(mem.log), EncoderWrites(l, fw, layer, encoder))
    {
      ghost var m, before := mem.bytes[..], mem.log;
      hide High;
      hide Low;
      hide Leads;
      ghost var addr := EncoderAddr(l, layer, encoder, true);
      var cw, ccw := fw.encoderMap(layer, encoder, true), fw.encoderMap(layer, encoder, false);
      SetEncoder(layer, encoder, true, cw);
      ghost var mHalf, logHalf := mem.bytes[..], mem.log;
      SetEncoder(layer, encoder, false, ccw);
      ghost var first, second := [Write(addr, High(cw)), Write(addr + 1, Low(cw))],
                                 [Write(addr + 2, High(ccw)), Write(addr + 3, Low(ccw))];
      assert EncoderAddr(l, layer, encoder, false) == addr + 2;
      LeadsOn(m, before, first, mHalf, logHalf, second, mem.bytes[..], mem.log);
      assert first + second == EncoderWrites(l, fw, layer, encoder);
    }

    /** dynamic_keymap_macro_reset */
    method DynamicKeymapMacroReset()
      requires Valid()
      modifies mem, mem.bytes
      ensures mem.Wrote(old(mem.bytes[..]), old(mem.log), MacroWrites(l.macroAddr, l.macroSize))
    {
      ghost var m, before := mem.bytes[..], mem.log;
      ghost var ws := MacroWrites(l.macroAddr, l.macroSize);
      hide Layout.KeymapBytes;
      hide Layout.EncoderBytes;
      var p := l.macroAddr;
      var end := l.macroAddr + l.macroSize;
      while p != end
        invariant l.macroAddr <= p <= end
        invariant mem.Wrote(m, before, ws[..p - l.macroAddr])
      {
        mem.UpdateByte(p, 0);
        ghost var i := p - l.macroAddr;
        WroteOne(mem, m, before, ws[..i], ws[i]);
        assert ws[..i + 1] == ws[..i] + [ws[i]];
        p := p + 1;
      }
      assert ws[..l.macroSize] == ws;
    }

    method EeconfigInitVia()
      requires Valid()
      modifies mem, mem.bytes
      ensures mem.Wrote(old(mem.bytes[..]), old(mem.log), InitWrites(l, fw))
    {
      ghost var m, before := mem.bytes[..], mem.log;
      ghost var f, o, k, c, t := MagicWrites(l, fw, false), OptionWrites(l.OptionsAddr(), l.optionsSize, fw.options),
        KeymapWrites(l, fw, l.layers), MacroWrites(l.macroAddr, l.macroSize), MagicWrites(l, fw, true);
      assert f + o + k + c + t == InitWrites(l, fw) by { Regrouped(f, o, k, c, t); }
      hide MagicWrites;
      hide OptionWrites;
      hide KeymapWrites;
      hide MacroWrites;
      hide InitWrites;
      hide Leads;
      ViaEepromSetValid(false);
      ghost var mInvalid, logInvalid := mem.bytes[..], mem.log;
      ViaSetLayoutOptions(fw.options);
      LeadsOn(m, before, f, mInvalid, logInvalid, o, mem.bytes[..], mem.log);
      ghost var mOptions, logOptions := mem.bytes[..], mem.log;
      DynamicKeymapReset();
      LeadsOn(m, before, f + o, mOptions, logOptions, k, mem.bytes[..], mem.log);
      ghost var mKeymap, logKeymap := mem.bytes[..], mem.log;
      DynamicKeymapMacroReset();
      LeadsOn(m, before, f + o + k, mKeymap, logKeymap, c, mem.bytes[..], mem.log);
      ghost var mMacros, logMacros := mem.bytes[..], mem.log;
      ViaEepromSetValid(true);
      LeadsOn(m, before, f + o + k + c, mMacros, logMacros, t, mem.bytes[..], mem.log);
    }

    /** via_init: afterwards the memory is valid, with the data it already held or with a full reset; and the
        writes on the way are those of eeconfig_init_via or none. */
    method ViaInit()
      requires Valid()
      modifies mem, mem.bytes
      ensures mem.Wrote(old(mem.bytes[..]), old(mem.log),
                        if old(MagicOk(l, fw, mem.bytes[..])) then [] else InitWrites(l, fw))
      ensures MagicOk(l, fw, mem.bytes[..])
      ensures mem.bytes[..] == Boot(l, fw, old(mem.bytes[..]), |InitWrites(l, fw)|)
      ensures mem.bytes[..] == old(mem.bytes[..]) || IsReset(l, fw, mem.bytes[..])
    {
      ghost var m := mem.bytes[..];
      hide InitWrites;
      hide MagicOk;
      hide IsReset;
      var options := ViaGetLayoutOptions();
      var ok := ViaEepromIsValid();
      BootEndsValid(l, fw, m, |InitWrites(l, fw)|);
      assert InitWrites(l, fw)[..|InitWrites(l, fw)|] == InitWrites(l, fw);
      if !ok {
        EeconfigInitVia();
      }
    }
  }

  /** The keycode with its bytes exchanged (lines 126 and 171). */
  function Swapped(kc: U16): U16 {
    Low(kc) as int * 256 + High(kc)
  }

  lemma {:induction false} CellOfByte(rows: nat, cols: nat, i: nat)
    requires i < rows * cols * 2
    ensures cols > 0 && Div(i / 2, cols) < rows
  {
    var n := i / 2;
    assert n < rows * cols;
    if n / cols >= rows {
      assert (n / cols) * cols >= rows * cols by { ScaledBelow(rows, n / cols + 1, cols); }
    }
  }

  lemma {:induction false} ImageByte(l: Layout, fw: Firmware, layer: nat, i: nat)
    requires i < l.LayerBytes()
    ensures LayerImage(l, fw, layer)[i] == LayerByte(l, fw, layer, i)
  {
  }

  lemma {:induction false} Regrouped(f: seq<Write>, o: seq<Write>, k: seq<Write>, c: seq<Write>, t: seq<Write>)
    ensures f + o + k + c + t == f + (o + k + c) + t
  {
  }

  lemma {:induction false} LayerImageLength(l: Layout, fw: Firmware, layer: nat)
    ensures |LayerImage(l, fw, layer)| == l.LayerBytes()
  {
  }

  lemma {:induction false} LayerFits(l: Layout, layer: nat)
    requires layer < l.layers
    ensures layer * l.LayerBytes() + l.LayerBytes() <= l.KeymapBytes()
  {
    ScaledBelow(layer, l.layers, l.LayerBytes());
  }
}
