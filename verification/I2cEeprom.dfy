/** The I2C EEPROM driver. Larger chips take their upper address bits from the bus address. */
module I2cEeprom {

  import opened Widths
  import opened Modular
  import opened PagedMemory

  /** The address bytes cover one window; the memory is one window, part of one, or several. */
  ghost predicate SaneWindows(g: Geometry) {
    var window := Pow256(g.addressBytes);
    && Paged(g) && Mod(window, g.page) == 0
    && (Mod(window, g.size) == 0 || Mod(g.size, window) == 0)
  }

  /** The cell a chip selects for the address bytes of `target` when the bus address was computed from `addr`. */
  ghost function Seen(g: Geometry, addr: nat, target: nat): (a: nat)
    requires g.size > 0
    ensures a < g.size
  {
    var window := Pow256(g.addressBytes);
    ModBelow(addr, window);
    Mod(addr - Mod(addr, window) + Mod(target, window), g.size)
  }

  /** What the chip holds after the driver's write. */
  ghost function Windowed(g: Geometry, m: seq<Byte>, addr: nat, data: seq<Byte>): (m': seq<Byte>)
    requires |m| == g.size > 0
    ensures |m'| == g.size
  {
    if data == [] then m
    else
      var n := |data| - 1;
      var m1, i := Windowed(g, m, addr, data[..n]), Seen(g, addr, addr + n);
      m1[i := Combine(g.cell, m1[i], data[n])]
  }

  /** Without bank bits, or while the write stays in its window, the chip selects the cell meant. */
  lemma {:induction false} SeenIsMeant(g: Geometry, addr: nat, n: nat)
    requires SaneWindows(g)
    requires Mod(Pow256(g.addressBytes), g.size) == 0 || Mod(addr, Pow256(g.addressBytes)) + n < Pow256(g.addressBytes)
    ensures Seen(g, addr, addr + n) == Mod(addr + n, g.size)
  {
    hide Mod, Pow256;
    var window := Pow256(g.addressBytes);
    var q := ModSplit(addr, window);
    if Mod(addr, window) + n < window {
      ModUnique(addr + n, window, q, Mod(addr, window) + n);
    } else {
      WholeWindow(q, window, addr + n, g.size);
    }
  }

  /** A window that is a multiple of the memory drops out. */
  lemma {:induction false} WholeWindow(q: nat, window: nat, target: nat, size: nat)
    requires window > 0 && size > 0 && Mod(window, size) == 0
    ensures Mod(q * window + Mod(target, window), size) == Mod(target, size)
  {
    hide Mod;
    MultipleVanishes(q, window, size);
    ModSum(q * window, Mod(target, window), size);
    ModOfMod(target, window, size);
  }

  /** The driver's write is the flat write wherever every byte's cell is the one meant. */
  lemma {:induction false} WindowedIsFlat(g: Geometry, m: seq<Byte>, addr: nat, data: seq<Byte>)
    requires SaneWindows(g) && |m| == g.size
    requires Mod(Pow256(g.addressBytes), g.size) == 0
      || Mod(addr, Pow256(g.addressBytes)) + |data| <= Pow256(g.addressBytes)
    ensures Windowed(g, m, addr, data) == Flat(g, m, addr, data)
    decreases |data|
  {
    if data != [] {
      var n := |data| - 1;
      WindowedIsFlat(g, m, addr, data[..n]);
      SeenIsMeant(g, addr, n);
      hide Mod;
      hide Seen;
      hide Pow256;
      hide Combine;
    }
  }

  /** On a chip with bank bits, the driver's write is the flat write for every content exactly when it stays
      inside one window: the bus address is computed from the start of the write, not from the chunk. */
  lemma {:induction false} FlatExactly(g: Geometry, addr: nat, n: nat)
    requires SaneWindows(g) && g.cell == Eeprom && Pow256(g.addressBytes) < g.size
    ensures (forall m: seq<Byte>, data: seq<Byte> | |m| == g.size && |data| == n ::
      Windowed(g, m, addr, data) == Flat(g, m, addr, data))
              <==> n == 0 || Mod(addr, Pow256(g.addressBytes)) + n <= Pow256(g.addressBytes)
  {
    var window := Pow256(g.addressBytes);
    if n == 0 || Mod(addr, window) + n <= window {
      forall m: seq<Byte>, data: seq<Byte> | |m| == g.size && |data| == n
        ensures Windowed(g, m, addr, data) == Flat(g, m, addr, data)
      {
        if n > 0 {
          WindowedIsFlat(g, m, addr, data);
        }
      }
    } else {
      CrossingDiffers(g, addr, n);
    }
  }

  /** The first byte past the window: a flat write sets it, the driver's does not. */
  lemma {:induction false} CrossingDiffers(g: Geometry, addr: nat, n: nat)
    requires SaneWindows(g) && g.cell == Eeprom && Pow256(g.addressBytes) < g.size
    requires n > 0 && Mod(addr, Pow256(g.addressBytes)) + n > Pow256(g.addressBytes)
    ensures exists m: seq<Byte>, data: seq<Byte> | |m| == g.size && |data| == n ::
      Windowed(g, m, addr, data) != Flat(g, m, addr, data)
  {
    var window := Pow256(g.addressBytes);
    var m: seq<Byte> := seq(g.size, _ => 0);
    var data: seq<Byte> := seq(n, _ => 1);
    var next := addr - Mod(addr, window) + window;
    var j := Mod(next, g.size);
    FlatSets(g, m, addr, data, next - addr);
    WindowedSpares(g, m, addr, data, j);
  }

  lemma {:induction false} FlatSets(g: Geometry, m: seq<Byte>, addr: nat, data: seq<Byte>, k: nat)
    requires g.cell == Eeprom && |m| == g.size > 0 && k < |data| && forall i :: 0 <= i < |data| ==> data[i] == 1
    ensures Flat(g, m, addr, data)[Mod(addr + k, g.size)] == 1
    decreases |data|
  {
    var n := |data| - 1;
    hide Mod;
    if k < n {
      FlatSets(g, m, addr, data[..n], k);
    }
  }

  lemma {:induction false} WindowedSpares(g: Geometry, m: seq<Byte>, addr: nat, data: seq<Byte>, j: nat)
    requires SaneWindows(g) && |m| == g.size && Pow256(g.addressBytes) < g.size
    requires j == Mod(addr - Mod(addr, Pow256(g.addressBytes)) + Pow256(g.addressBytes), g.size)
    ensures Windowed(g, m, addr, data)[j] == m[j]
    decreases |data|
  {
    if data != [] {
      var n := |data| - 1;
      WindowedSpares(g, m, addr, data[..n], j);
      NextWindowUnseen(g, addr, addr + n);
      hide Mod;
      hide Seen;
      hide Pow256;
      hide Combine;
    }
  }

  lemma {:induction false} NextWindowUnseen(g: Geometry, addr: nat, target: nat)
    requires SaneWindows(g) && Pow256(g.addressBytes) < g.size
    ensures Seen(g, addr, target) != Mod(addr - Mod(addr, Pow256(g.addressBytes)) + Pow256(g.addressBytes), g.size)
  {
    var window := Pow256(g.addressBytes);
    ModBelow(addr, window);
    ModSmall(window, g.size);
    var base := addr - Mod(addr, window);
    var t := Mod(target, window);
    hide Mod;
    hide Pow256;
    if Mod(base + t, g.size) == Mod(base + window, g.size) {
      ModCancel(base, t, window, g.size);
    }
  }

  // ---------- chunks ----------

  lemma {:induction false} SeenAdvance(g: Geometry, addr: nat, target: nat, i: nat)
    requires SaneWindows(g) && Mod(target, g.page) + i < g.page
    ensures Mod(Seen(g, addr, target), g.page) == Mod(target, g.page)
    ensures Seen(g, addr, target + i) == Seen(g, addr, target) + i
  {
    var window := Pow256(g.addressBytes);
    var q := ModSplit(addr, window);
    ModAdvance(target, i, g.page, window);
    MultipleVanishes(q, window, g.page);
    var base := addr - Mod(addr, window);
    hide Mod;
    hide Pow256;
    ModSum(base, Mod(target, window), g.page);
    ModAdvance(base + Mod(target, window), i, g.page, g.size);
  }

  /** The driver's write of the bytes that arrived. */
  ghost function Partial(g: Geometry, m: seq<Byte>, addr: nat, data: seq<Byte>, mask: seq<bool>): (m': seq<Byte>)
    requires |m| == g.size > 0 && |mask| == |data|
    ensures |m'| == g.size
  {
    if data == [] then m
    else
      var n := |data| - 1;
      var m1, i := Partial(g, m, addr, data[..n], mask[..n]), Seen(g, addr, addr + n);
      if mask[n] then m1[i := Combine(g.cell, m1[i], data[n])] else m1
  }

  lemma {:induction false} AllOfIt(g: Geometry, m: seq<Byte>, addr: nat, data: seq<Byte>, mask: seq<bool>)
    requires |m| == g.size > 0 && |mask| == |data| && forall i :: 0 <= i < |mask| ==> mask[i]
    ensures Partial(g, m, addr, data, mask) == Windowed(g, m, addr, data)
    decreases |data|
  {
    hide Seen, Combine;
    if data != [] {
      AllOfIt(g, m, addr, data[..|data| - 1], mask[..|data| - 1]);
    }
  }

  /** A chunk of which `k` bytes arrive, as one page write, continues the driver's write. */
  lemma {:induction false} WindowedContinues(g: Geometry, m: seq<Byte>, addr: nat, x: seq<Byte>, mask: seq<bool>,
                                             y: seq<Byte>, k: nat)
    requires SaneWindows(g) && |m| == g.size && |mask| == |x| && k <= |y| && Mod(addr + |x|, g.page) + |y| <= g.page
    ensures PageWrite(g, Partial(g, m, addr, x, mask), Seen(g, addr, addr + |x|), y[..k])
              == Partial(g, m, addr, x + y, mask + Arrived(|y|, k))
    decreases |y|
  {
    hide Mod, Seen, InPage, Pow256, Combine, SaneWindows;
    WindowsPaged(g);
    if y == [] {
      assert x + y == x && mask + Arrived(0, k) == mask;
    } else {
      var n := |y| - 1;
      var k' := if k <= n then k else n;
      assert (x + y)[..|x + y| - 1] == x + y[..n];
      assert (mask + Arrived(|y|, k))[..|x + y| - 1] == mask + Arrived(n, k');
      WindowedContinues(g, m, addr, x, mask, y[..n], k');
      if k <= n {
        assert y[..n][..k] == y[..k];
      } else {
        assert y[..k] == y && y[..n][..n] == y[..n];
        SeenAdvance(g, addr, addr + |x|, n);
        InPageBelow(g, Seen(g, addr, addr + |x|), n);
      }
    }
  }

  lemma {:induction false} WindowsPaged(g: Geometry)
    requires SaneWindows(g)
    ensures Paged(g)
  {
  }

  /** The next chunk of the write loop. */
  lemma {:induction false} NextChunk(g: Geometry, m: seq<Byte>, addr: nat, data: seq<Byte>, mask: seq<bool>, k: nat)
    requires SaneWindows(g) && |m| == g.size && |mask| < |data|
    requires k <= ChunkLength(g.page, addr + |mask|, |data| - |mask|)
    ensures var n, c := |mask|, ChunkLength(g.page, addr + |mask|, |data| - |mask|);
            && data[n..][..c][..k] == data[n..n + k]
            && PageWrite(g, Partial(g, m, addr, data[..n], mask), Seen(g, addr, addr + n), data[n..n + k])
                 == Partial(g, m, addr, data[..n + c], mask + Arrived(c, k))
  {
    hide Mod, PageWrite, Partial, Arrived, SaneWindows;
    WindowsPaged(g);
    var n, c := |mask|, ChunkLength(g.page, addr + |mask|, |data| - |mask|);
    WindowedContinues(g, m, addr, data[..n], mask, data[n..n + c], k);
    assert data[..n] + data[n..n + c] == data[..n + c];
    assert data[n..n + c][..k] == data[n..n + k];
  }

  // ---------- the copy loop ----------

  /** The 8-bit counter after `i`. */
  function Counted(i: Byte): Byte {
    (i + 1) % 256
  }

  /** The counter after so many turns of the copy loop. */
  function CounterAfter(turns: nat): Byte {
    if turns == 0 then 0 else Counted(CounterAfter(turns - 1))
  }

  /** Some number of turns brings the counter up to the chunk's length. */
  ghost predicate CopyEnds(length: nat) {
    exists turns: nat :: CounterAfter(turns) >= length
  }

  /** The copy loop ends if and only if the chunk has at most 255 bytes. */
  lemma {:induction false} CopyEndsExactly(length: nat)
    ensures CopyEnds(length) <==> length <= 255
  {
    if length <= 255 {
      CounterReaches(length);
    }
  }

  lemma {:induction false} CounterReaches(turns: nat)
    requires turns <= 255
    ensures CounterAfter(turns) == turns
  {
    hide Counted;
    if turns > 0 {
      CounterReaches(turns - 1);
      CountedOn(turns - 1);
    }
  }

  lemma {:induction false} CountedOn(i: Byte)
    requires i < 255
    ensures Counted(i) == i + 1
  {
  }

  /** How many bytes of a write are sent before a chunk for which the copy loop does not end. */
  ghost function Sent(page: nat, addr: nat, length: nat): (n: nat)
    requires page > 0
    ensures n <= length
    decreases length
  {
    var c := ChunkLength(page, addr, length);
    if length == 0 || !CopyEnds(c) then 0 else c + Sent(page, addr + c, length - c)
  }

  lemma {:induction false} SentNext(page: nat, addr: nat, length: nat)
    requires page > 0
    ensures var c := ChunkLength(page, addr, length);
            Sent(page, addr, length) == if length == 0 || !CopyEnds(c) then 0 else c + Sent(page, addr + c, length - c)
  {
  }

  /** Which calls end: all of them on pages of at most 255 bytes; on larger ones those whose part on the first page
      and the rest have at most 255 bytes each. */
  lemma {:induction false} WriteEndsExactly(page: nat, addr: nat, length: nat)
    requires page > 0
    ensures var first := ChunkLength(page, addr, length);
            Sent(page, addr, length) == length <==> page <= 255 || (first <= 255 && length - first <= 255)
    decreases length
  {
    hide Mod, CopyEnds;
    if length > 0 {
      var c := ChunkLength(page, addr, length);
      CopyEndsExactly(c);
      WriteEndsExactly(page, addr + c, length - c);
      if c < length {
        FirstEndsPage(page, addr, length);
      }
    }
  }

  lemma {:induction false} FirstEndsPage(page: nat, addr: nat, length: nat)
    requires page > 0 && ChunkLength(page, addr, length) < length
    ensures Mod(addr + ChunkLength(page, addr, length), page) == 0
  {
    var q := ModSplit(addr, page);
    assert (q + 1) * page == q * page + page;
    ModUnique(addr + ChunkLength(page, addr, length), page, q + 1, 0);
  }

  /** The driver's own erase writes one page at a time. */
  lemma {:induction false} PageSent(page: nat, addr: nat)
    requires page > 0 && Mod(addr, page) == 0
    ensures Sent(page, addr, page) == if page <= 255 then page else 0
  {
    hide Mod, CopyEnds;
    CopyEndsExactly(page);
  }

  lemma {:induction false} NothingWritten(g: Geometry, m: seq<Byte>, addr: nat, data: seq<Byte>)
    requires |m| == g.size > 0
    ensures Windowed(g, m, addr, data[..0]) == Partial(g, m, addr, data[..0], []) == m
    ensures data[0..] == data && (g.page > 0 ==> PageByPage(g.page, addr, []))
  {
  }

  /** The packet names the cell the specification says. */
  lemma {:induction false} PacketNames(g: Geometry, addr: nat, target: nat, chunk: seq<Byte>)
    requires g.size > 0
    ensures var packet := Digits(target, g.addressBytes) + chunk;
            && packet[g.addressBytes..] == chunk
            && Mod(addr, Pow256(g.addressBytes)) <= addr
            && Mod(addr - Mod(addr, Pow256(g.addressBytes)) + Value(packet[..g.addressBytes]), g.size)
                 == Seen(g, addr, target)
  {
    var d := Digits(target, g.addressBytes);
    assert (d + chunk)[..g.addressBytes] == d;
    DigitsValue(target, g.addressBytes);
    ModBelow(addr, Pow256(g.addressBytes));
  }

  /** Zeroing one whole page. */
  lemma {:induction false} PageOfZeros(g: Geometry, m: seq<Byte>, addr: nat)
    requires SaneWindows(g) && |m| == g.size && g.cell == Eeprom && addr < g.size && Mod(addr, g.page) == 0
    ensures addr + g.page <= g.size
    ensures Mod(addr + g.page, g.page) == 0
    ensures forall j :: 0 <= j < g.size ==>
      Windowed(g, m, addr, Zeros(g.page))[j] == if addr <= j < addr + g.page then 0 else m[j]
  {
    var window := Pow256(g.addressBytes);
    PageBelow(addr, g.page, g.size);
    ModAdd(addr, 1, g.page);
    ModOfMod(addr, window, g.page);
    PageBelow(Mod(addr, window), g.page, window);
    hide Mod;
    hide Pow256;
    hide Windowed;
    var zeros := Zeros(g.page);
    WindowedIsFlat(g, m, addr, zeros);
    forall j | 0 <= j < g.size
      ensures Windowed(g, m, addr, zeros)[j] == if addr <= j < addr + g.page then 0 else m[j]
    {
      WriteStores(g, m, addr, zeros, j);
    }
  }

  // ---------- the driver ----------

  /** `faults` counts the transfers that broke off. */
  class Chip {
    const g: Geometry
    var m: seq<Byte>
    ghost var faults: nat

    constructor (g: Geometry, m: seq<Byte>)
      requires SaneWindows(g) && |m| == g.size
      ensures Valid() && this.g == g && this.m == m
    {
      this.g, this.m, faults := g, m, 0;
    }

    ghost predicate Valid()
      reads this
    {
      SaneWindows(g) && |m| == g.size
    }

    /** A write packet: address bytes, then data. `high` is the part of the address carried by the bus address. When
        it breaks off, the chip writes the `k` data bytes it has got. */
    method Transmit(high: nat, packet: seq<Byte>) returns (ghost k: nat)
      requires Valid() && |packet| >= g.addressBytes
      modifies this
      ensures Valid() && k <= |packet| - g.addressBytes
      ensures if k == |packet| - g.addressBytes then faults >= old(faults) else faults > old(faults)
      ensures faults == old(faults) ==> k == |packet| - g.addressBytes
      ensures m
        == PageWrite(g, old(m), Mod(high + Value(packet[..g.addressBytes]), g.size), packet[g.addressBytes..][..k])
    {
      var arrived: nat := *;
      if arrived >= |packet| {
        arrived := |packet|;
      } else {
        faults := faults + 1;
      }
      if arrived < g.addressBytes {
        arrived := g.addressBytes;
      }
      k := arrived - g.addressBytes;
      assert packet[g.addressBytes..][..k] == packet[g.addressBytes..arrived];
      m := PageWrite(g, m, Mod(high + Value(packet[..g.addressBytes]), g.size), packet[g.addressBytes..arrived]);
    }

    /** A read that breaks off leaves anything in the caller's buffer. */
    method Receive(high: nat, address: seq<Byte>, n: nat) returns (data: seq<Byte>)
      requires Valid()
      modifies this`faults
      ensures |data| == n && faults >= old(faults)
      ensures faults == old(faults) ==> data == Span(m, high + Value(address), n)
    {
      var ok: bool := *;
      data := Span(m, high + Value(address), n);
      if !ok {
        faults := faults + 1;
        data := *;
        data := seq(n, i requires 0 <= i < n => if i < |data| then data[i] else 0);
      }
    }
  }

  class Driver {
    const chip: Chip

    constructor (chip: Chip)
      ensures this.chip == chip
    {
      this.chip := chip;
    }

    /** The address bits above the address bytes. */
    function HighBits(addr: nat): (high: nat)
      ensures high == addr - Mod(addr, Pow256(chip.g.addressBytes))
    {
      ModBelow(addr, Pow256(chip.g.addressBytes));
      addr - Mod(addr, Pow256(chip.g.addressBytes))
    }

    /** Builds the packet for one chunk. The copy loop counts in 8 bits; when its counter comes back to 0, every
        turn from here on is one it has made before, and the loop never ends. */
    method FillPacket(target: nat, chunk: seq<Byte>) returns (ends: bool, packet: seq<Byte>)
      requires |chunk| <= chip.g.page
      ensures ends <==> CopyEnds(|chunk|)
      ensures ends ==> packet == Digits(target, chip.g.addressBytes) + chunk
    {
      CopyEndsExactly(|chunk|);
      hide CopyEnds, Digits;
      var a := chip.g.addressBytes;
      var address := AddressBytes(target, a);
      var complete := new Byte[a + chip.g.page](i requires 0 <= i => if i < |address| then address[i] else 0);
      var i: Byte := 0;
      while i < |chunk|
        invariant i <= |chunk| && complete[..a + i] == address + chunk[..i]
        decreases 256 - i
      {
        ghost var filled := complete[..a + i];
        complete[a + i] := chunk[i];
        assert complete[..a + i + 1] == filled + [chunk[i]];
        assert chunk[..i + 1] == chunk[..i] + [chunk[i]];
        if Counted(i) == 0 {
          return false, [];
        }
        i := Counted(i);
      }
      packet := complete[..a + |chunk|];
      assert chunk[..|chunk|] == chunk;
      return true, packet;
    }

    /** What arrives of the data before a chunk too long for the copy loop, and everything when there is none and
        nothing breaks off. The driver notices neither. */
    method EepromWriteBlock(data: seq<Byte>, addr: nat) returns (ends: bool, ghost mask: seq<bool>)
      requires chip.Valid()
      modifies chip
      ensures chip.Valid() && chip.faults >= old(chip.faults)
      ensures |mask| == Sent(chip.g.page, addr, |data|) && PageByPage(chip.g.page, addr, mask)
      ensures chip.m == Partial(chip.g, old(chip.m), addr, data[..|mask|], mask)
      ensures ends <==> |mask| == |data|
      ensures chip.faults == old(chip.faults) ==> chip.m == Windowed(chip.g, old(chip.m), addr, data[..|mask|])
    {
      hide Mod, PageWrite, Windowed, Partial, ChunkLength, Digits, Seen, CopyEnds, Sent, PageByPage, Arrived,
        SaneWindows;
      WindowsPaged(chip.g);
      ghost var m0, all := chip.m, Sent(chip.g.page, addr, |data|);
      NothingWritten(chip.g, m0, addr, data);
      mask := [];
      var target, rest := addr, data;
      while rest != []
        invariant chip.Valid() && chip.faults >= old(chip.faults)
        invariant |mask| <= |data| && rest == data[|mask|..] && target == addr + |mask|
        invariant all == |mask| + Sent(chip.g.page, target, |rest|)
        invariant chip.m == Partial(chip.g, m0, addr, data[..|mask|], mask)
        invariant PageByPage(chip.g.page, addr, mask) && (mask == [] || rest == [] || Mod(target, chip.g.page) == 0)
        invariant chip.faults == old(chip.faults) ==> forall i :: 0 <= i < |mask| ==> mask[i]
        decreases |rest|
      {
        var length := ChunkLength(chip.g.page, target, |rest|);
        SentNext(chip.g.page, target, |rest|);
        var short, packet := FillPacket(target, rest[..length]);
        if !short {
          SendsAll(chip.g, m0, addr, data[..|mask|], mask, chip.faults == old(chip.faults));
          return false, mask;
        }
        PacketNames(chip.g, addr, target, rest[..length]);
        ghost var k := chip.Transmit(HighBits(addr), packet);
        NextChunk(chip.g, m0, addr, data, mask, k);
        NextPageArrives(chip.g.page, addr, mask, length, k);
        NextTarget(chip.g.page, target, |rest|);
        mask := mask + Arrived(length, k);
        rest := rest[length..];
        target := target + length;
      }
      SentNext(chip.g.page, target, 0);
      SendsAll(chip.g, m0, addr, data[..|mask|], mask, chip.faults == old(chip.faults));
      return true, mask;
    }

    method EepromReadBlock(addr: nat, n: nat) returns (data: seq<Byte>)
      requires chip.Valid()
      modifies chip`faults
      ensures |data| == n && chip.faults >= old(chip.faults)
      ensures chip.faults == old(chip.faults) ==> data == Span(chip.m, addr, n)
    {
      var address := AddressBytes(addr, chip.g.addressBytes);
      DigitsValue(addr, chip.g.addressBytes);
      data := chip.Receive(HighBits(addr), address, n);
    }

    /** Despite its name it leaves zeros. A page of 256 bytes or more is a chunk too long for the copy loop. */
    method EepromDriverErase() returns (ends: bool)
      requires chip.Valid() && chip.g.cell == Eeprom
      modifies chip
      ensures chip.Valid() && chip.faults >= old(chip.faults)
      ensures ends <==> chip.g.page <= 255
      ensures !ends ==> chip.m == old(chip.m)
      ensures ends && chip.faults == old(chip.faults) ==> chip.m == Zeros(chip.g.size)
    {
      hide Mod, Windowed, Partial, Seen, Sent, PageByPage, SaneWindows;
      WindowsPaged(chip.g);
      ModSmall(0, chip.g.page);
      var addr := 0;
      while addr < chip.g.size
        invariant chip.Valid() && Mod(addr, chip.g.page) == 0 && addr <= chip.g.size && chip.faults >= old(chip.faults)
        invariant addr == 0 ==> chip.m == old(chip.m)
        invariant addr > 0 ==> chip.g.page <= 255
        invariant chip.faults == old(chip.faults) ==> forall j :: 0 <= j < addr ==> chip.m[j] == 0
        decreases chip.g.size - addr
      {
        PageOfZeros(chip.g, chip.m, addr);
        PageSent(chip.g.page, addr);
        NothingWritten(chip.g, chip.m, addr, Zeros(chip.g.page));
        assert Zeros(chip.g.page)[..chip.g.page] == Zeros(chip.g.page);
        var short, mask := EepromWriteBlock(Zeros(chip.g.page), addr);
        if !short {
          assert mask == [];
          return false;
        }
        addr := addr + chip.g.page;
      }
      return true;
    }
  }

  lemma {:induction false} SendsAll(g: Geometry, m: seq<Byte>, addr: nat, data: seq<Byte>, mask: seq<bool>, all: bool)
    requires |m| == g.size > 0 && |mask| == |data| && (all ==> forall i :: 0 <= i < |mask| ==> mask[i])
    ensures all ==> Partial(g, m, addr, data, mask) == Windowed(g, m, addr, data)
  {
    if all {
      AllOfIt(g, m, addr, data, mask);
    }
  }

  /** A chunk that is not the last ends its page. */
  lemma {:induction false} NextTarget(page: nat, target: nat, length: nat)
    requires page > 0
    ensures var c := ChunkLength(page, target, length); c < length ==> Mod(target + c, page) == 0
  {
    if ChunkLength(page, target, length) < length {
      FirstEndsPage(page, target, length);
    }
  }
}
