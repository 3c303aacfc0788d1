/** Memory chips that are written a page at a time. A page write that runs past the end of its page wraps
    round to the start of the same page, so drivers must split their writes. */
module PagedMemory {

  import opened Widths
  import opened Modular

  /** Programming NOR flash only clears bits; an EEPROM cell takes the new byte. */
  datatype Cell = Flash | Eeprom

  function And(a: Byte, b: Byte): Byte {
    (a as bv8 & b as bv8) as Byte
  }

  function Combine(cell: Cell, before: Byte, given: Byte): Byte {
    if cell == Flash then And(before, given) else given
  }

  /** `addressBytes` address bytes are sent; the chip ignores the address bits beyond its size. */
  datatype Geometry = Geometry(cell: Cell, size: nat, page: nat, addressBytes: nat)

  ghost predicate Paged(g: Geometry) {
    0 < g.page <= g.size && Mod(g.size, g.page) == 0
  }

  ghost predicate Sane(g: Geometry) {
    && Paged(g)
    && Mod(Pow256(g.addressBytes), g.size) == 0
    && Mod(0x1_0000_0000, Pow256(g.addressBytes)) == 0
  }

  // ---------- addresses on the wire ----------

  /** The value of address bytes, most significant first. */
  function Value(bytes: seq<Byte>): nat {
    if bytes == [] then 0 else 256 * Value(bytes[..|bytes| - 1]) + bytes[|bytes| - 1]
  }

  /** The last `n` bytes of `a`, most significant first. */
  function Digits(a: nat, n: nat): (d: seq<Byte>)
    ensures |d| == n
  {
    if n == 0 then [] else Digits(a / 256, n - 1) + [a % 256]
  }

  lemma {:induction false} DigitsValue(a: nat, n: nat)
    ensures Value(Digits(a, n)) == Mod(a, Pow256(n))
  {
    hide Mod;
    if n == 0 {
      ModSmall(0, 1);
      ModAdd(0, a, 1);
    } else {
      DigitsValue(a / 256, n - 1);
      ModDigit(a, Pow256(n - 1));
      var d := Digits(a, n);
      assert d[..|d| - 1] == Digits(a / 256, n - 1);
    }
  }

  /** The cell the chip selects. */
  function Selected(g: Geometry, address: seq<Byte>): (a: nat)
    requires g.size > 0
    ensures a < g.size
  {
    Mod(Value(address), g.size)
  }

  /** The chip selects the cell the driver meant. */
  lemma {:induction false} SelectedIsMeant(g: Geometry, addr: nat)
    requires Sane(g)
    ensures Selected(g, Digits(addr, g.addressBytes)) == Mod(addr, g.size)
  {
    DigitsValue(addr, g.addressBytes);
    ModOfMod(addr, Pow256(g.addressBytes), g.size);
  }

  lemma {:induction false} DigitsShift(a: nat, n: nat, tail: seq<Byte>)
    requires n > 0
    ensures Digits(a, n) + tail == Digits(a / 256, n - 1) + ([a % 256] + tail)
  {
  }

  /** Fills the address buffer from its last byte (flash_spi.c:133-136, eeprom_spi.c:81-84, eeprom_i2c.c:49-53). */
  method AddressBytes(addr: nat, n: nat) returns (bytes: seq<Byte>)
    ensures bytes == Digits(addr, n)
  {
    var buffer := new Byte[n](_ => 0);
    var rest := addr;
    for i := 0 to n
      invariant Digits(addr, n) == Digits(rest, n - i) + buffer[n - i..]
    {
      DigitsShift(rest, n - i, buffer[n - i..]);
      hide Digits;
      buffer[n - 1 - i] := rest % 256;
      rest := rest / 256;
      assert buffer[n - 1 - i..] == [buffer[n - 1 - i]] + buffer[n - i..];
    }
    bytes := buffer[..];
  }

  // ---------- writes ----------

  /** One flat write at address `a`: what the caller of a driver asks for. */
  ghost function Flat(g: Geometry, m: seq<Byte>, a: nat, data: seq<Byte>): (m': seq<Byte>)
    requires |m| == g.size > 0
    ensures |m'| == g.size
  {
    if data == [] then m
    else
      var n := |data| - 1;
      var m1, i := Flat(g, m, a, data[..n]), Mod(a + n, g.size);
      m1[i := Combine(g.cell, m1[i], data[n])]
  }

  /** Where byte `i` of a page write at `a` lands. */
  function InPage(page: nat, a: nat, i: nat): nat
    requires page > 0
  {
    a - (if Mod(a, page) <= a then Mod(a, page) else a) + Mod(Mod(a, page) + i, page)
  }

  lemma {:induction false} InPageBelow(g: Geometry, a: nat, i: nat)
    requires Paged(g) && a < g.size
    ensures InPage(g.page, a, i) < g.size
    ensures Mod(a, g.page) + i < g.page ==> InPage(g.page, a, i) == a + i
  {
    PageBelow(a, g.page, g.size);
    ModBelow(a, g.page);
    if Mod(a, g.page) + i < g.page {
      ModSmall(Mod(a, g.page) + i, g.page);
    }
    hide Mod;
  }

  /** One page write as the chip performs it. */
  function PageWrite(g: Geometry, m: seq<Byte>, a: nat, data: seq<Byte>): (m': seq<Byte>)
    requires Paged(g) && |m| == g.size && a < g.size
    ensures |m'| == g.size
  {
    if data == [] then m
    else
      var n := |data| - 1;
      InPageBelow(g, a, n);
      var m1, i := PageWrite(g, m, a, data[..n]), InPage(g.page, a, n);
      m1[i := Combine(g.cell, m1[i], data[n])]
  }

  /** Within one page, the chip's write is the flat write. */
  lemma {:induction false} PageWriteIsFlat(g: Geometry, m: seq<Byte>, a: nat, data: seq<Byte>)
    requires Paged(g) && |m| == g.size && a < g.size && Mod(a, g.page) + |data| <= g.page
    ensures PageWrite(g, m, a, data) == Flat(g, m, a, data)
    decreases |data|
  {
    if data != [] {
      var n := |data| - 1;
      PageWriteIsFlat(g, m, a, data[..n]);
      InPageBelow(g, a, n);
      ModSmall(a + n, g.size);
      hide Mod;
      hide InPage;
      hide Combine;
    }
  }

  lemma {:induction false} FlatConcat(g: Geometry, m: seq<Byte>, a: nat, x: seq<Byte>, y: seq<Byte>)
    requires |m| == g.size > 0
    ensures Flat(g, m, a, x + y) == Flat(g, Flat(g, m, a, x), a + |x|, y)
    decreases |y|
  {
    if y == [] {
      assert x + y == x;
    } else {
      var y' := y[..|y| - 1];
      assert (x + y)[..|x + y| - 1] == x + y';
      FlatConcat(g, m, a, x, y');
    }
  }

  /** Only the address modulo the size matters. */
  lemma {:induction false} FlatMod(g: Geometry, m: seq<Byte>, a: nat, b: nat, data: seq<Byte>)
    requires |m| == g.size > 0 && Mod(a, g.size) == Mod(b, g.size)
    ensures Flat(g, m, a, data) == Flat(g, m, b, data)
    decreases |data|
  {
    if data != [] {
      var n := |data| - 1;
      FlatMod(g, m, a, b, data[..n]);
      ModSum(a, n, g.size);
      ModSum(b, n, g.size);
      hide Mod;
      hide Combine;
    }
  }

  /** What a flat write leaves where. */
  lemma {:induction false} FlatAt(g: Geometry, m: seq<Byte>, a: nat, data: seq<Byte>, j: nat)
    requires |m| == g.size > 0 && a + |data| <= g.size && j < g.size
    ensures Flat(g, m, a, data)[j] == if a <= j < a + |data| then Combine(g.cell, m[j], data[j - a]) else m[j]
    decreases |data|
  {
    if data != [] {
      var n := |data| - 1;
      FlatAt(g, m, a, data[..n], j);
      ModSmall(a + n, g.size);
      hide Mod;
      hide Combine;
    }
  }

  // ---------- reads ----------

  /** The bytes a read of `n` cells from `a` delivers; reads wrap at the end of the memory. */
  function Span(m: seq<Byte>, a: nat, n: nat): (d: seq<Byte>)
    requires |m| > 0
    ensures |d| == n
  {
    seq(n, i requires 0 <= i < n => m[Mod(a + i, |m|)])
  }

  lemma {:induction false} SpanWraps(m: seq<Byte>, a: nat, n: nat)
    requires |m| > 0
    ensures Span(m, Mod(a, |m|), n) == Span(m, a, n)
  {
    hide Mod;
    forall i | 0 <= i < n ensures Span(m, Mod(a, |m|), n)[i] == Span(m, a, n)[i] {
      ModSum(a, i, |m|);
    }
  }

  /** What a complete EEPROM write stores, a read of the same cells returns. */
  lemma {:induction false} WriteThenRead(g: Geometry, m: seq<Byte>, addr: nat, data: seq<Byte>)
    requires g.cell == Eeprom && |m| == g.size > 0 && addr + |data| <= g.size
    ensures Span(Flat(g, m, addr, data), addr, |data|) == data
  {
    var after := Flat(g, m, addr, data);
    hide Flat;
    forall i | 0 <= i < |data| ensures Span(after, addr, |data|)[i] == data[i] {
      ModSmall(addr + i, g.size);
      WriteStores(g, m, addr, data, addr + i);
    }
  }

  // ---------- splitting ----------

  /** `n` bytes of a write at `addr` end a whole number of pages, or the write. */
  ghost predicate IsBoundary(g: Geometry, addr: nat, n: nat, length: nat)
    requires g.page > 0
  {
    n <= length && (n == 0 || n == length || Mod(addr + n, g.page) == 0)
  }

  /** The length of the next chunk (flash_spi.c:321-325 and the two EEPROM drivers). */
  function ChunkLength(page: nat, addr: nat, length: nat): (n: nat)
    requires page > 0
    ensures length > 0 ==> 0 < n <= length
    ensures Mod(addr, page) + n <= page
  {
    var n := page - Mod(addr, page);
    if n > length then length else n
  }

  lemma {:induction false} ChunkEndsAtBoundary(g: Geometry, addr: nat, n: nat, length: nat)
    requires g.page > 0 && n < length
    ensures IsBoundary(g, addr, n + ChunkLength(g.page, addr + n, length - n), length)
  {
    var a := addr + n;
    var c := ChunkLength(g.page, a, length - n);
    if c < length - n {
      var q := ModSplit(a, g.page);
      assert (q + 1) * g.page == q * g.page + g.page;
      ModUnique(a + c, g.page, q + 1, 0);
    }
  }

  /** The driver's 32-bit address may wrap; chunk and cell stay the same. */
  lemma {:induction false} WrappedAddress(g: Geometry, a: nat, w: nat, length: nat)
    requires Sane(g) && w == Mod(a, 0x1_0000_0000)
    ensures ChunkLength(g.page, w, length) == ChunkLength(g.page, a, length)
    ensures Mod(w, g.size) == Mod(a, g.size)
    ensures Mod(w, g.page) == Mod(a, g.page)
  {
    hide Mod;
    var word, p := 0x1_0000_0000, Pow256(g.addressBytes);
    ModSmall(0, g.size);
    ModSmall(0, g.page);
    ModOfMod(word, p, g.size);
    ModOfMod(word, g.size, g.page);
    ModOfMod(a, word, g.size);
    ModOfMod(a, word, g.page);
  }

  lemma {:induction false} PageContinues(g: Geometry, m: seq<Byte>, addr: nat, seen: nat, x: seq<Byte>, y: seq<Byte>)
    requires Sane(g) && |m| == g.size && seen == Mod(addr + |x|, g.size) && Mod(seen, g.page) + |y| <= g.page
    ensures PageWrite(g, Flat(g, m, addr, x), seen, y) == Flat(g, m, addr, x + y)
  {
    ModSmall(seen, g.size);
    var m1 := Flat(g, m, addr, x);
    hide *;
    PageWriteIsFlat(g, m1, seen, y);
    FlatMod(g, m1, seen, addr + |x|, y);
    FlatConcat(g, m, addr, x, y);
  }

  /** Writing the next chunk at the address the chip sees continues the flat write. */
  lemma {:induction false} ChunkContinues(g: Geometry, m: seq<Byte>, addr: nat, data: seq<Byte>, n: nat, seen: nat)
    requires Sane(g) && |m| == g.size && n < |data| && seen == Mod(addr + n, g.size)
    ensures var c := ChunkLength(g.page, addr + n, |data| - n);
            && Mod(seen, g.page) + c <= g.page
            && PageWrite(g, Flat(g, m, addr, data[..n]), seen, data[n..n + c]) == Flat(g, m, addr, data[..n + c])
  {
    var c := ChunkLength(g.page, addr + n, |data| - n);
    ModOfMod(addr + n, g.size, g.page);
    hide Mod;
    hide PageWrite;
    hide Flat;
    PageContinues(g, m, addr, seen, data[..n], data[n..n + c]);
    assert data[..n] + data[n..n + c] == data[..n + c];
  }

  // ---------- transfers that break off ----------

  /** Of `n` bytes the first `k` arrived. */
  function Arrived(n: nat, k: nat): (mask: seq<bool>)
    ensures |mask| == n && (k == n ==> forall i :: 0 <= i < n ==> mask[i])
  {
    seq(n, i => i < k)
  }

  /** A flat write of the bytes that arrived. */
  ghost function Masked(g: Geometry, m: seq<Byte>, a: nat, data: seq<Byte>, mask: seq<bool>): (m': seq<Byte>)
    requires |m| == g.size > 0 && |mask| == |data|
    ensures |m'| == g.size
  {
    if data == [] then m
    else
      var n := |data| - 1;
      var m1, i := Masked(g, m, a, data[..n], mask[..n]), Mod(a + n, g.size);
      if mask[n] then m1[i := Combine(g.cell, m1[i], data[n])] else m1
  }

  lemma {:induction false} AllArrived(g: Geometry, m: seq<Byte>, a: nat, data: seq<Byte>, mask: seq<bool>)
    requires |m| == g.size > 0 && |mask| == |data| && forall i :: 0 <= i < |mask| ==> mask[i]
    ensures Masked(g, m, a, data, mask) == Flat(g, m, a, data)
    decreases |data|
  {
    hide Mod, Combine;
    if data != [] {
      AllArrived(g, m, a, data[..|data| - 1], mask[..|data| - 1]);
    }
  }

  /** Bytes arrive in order, page by page: behind one that is missing, the rest of its page is missing. */
  ghost predicate PageByPage(page: nat, addr: nat, mask: seq<bool>)
    requires page > 0
  {
    forall i :: 0 < i < |mask| && mask[i] && Mod(addr + i, page) != 0 ==> mask[i - 1]
  }

  lemma {:induction false} NextPageArrives(page: nat, addr: nat, mask: seq<bool>, n: nat, k: nat)
    requires page > 0 && PageByPage(page, addr, mask) && (mask == [] || Mod(addr + |mask|, page) == 0)
    ensures PageByPage(page, addr, mask + Arrived(n, k))
  {
    hide Mod;
    var longer := mask + Arrived(n, k);
    forall i | 0 < i < |longer| && longer[i] && Mod(addr + i, page) != 0 ensures longer[i - 1] {
      if i < |mask| {
        assert longer[i] == mask[i];
      }
    }
  }

  lemma {:induction false} MaskedTail(g: Geometry, m: seq<Byte>, a: nat, x: seq<Byte>, mask: seq<bool>, y: seq<Byte>,
                                      k: nat)
    requires |m| == g.size > 0 && |mask| == |x| && k <= |y|
    ensures Masked(g, m, a, x + y, mask + Arrived(|y|, k)) == Flat(g, Masked(g, m, a, x, mask), a + |x|, y[..k])
    decreases |y|
  {
    hide Mod, Combine;
    if y == [] {
      assert x + y == x && mask + Arrived(0, k) == mask && y[..k] == [];
    } else {
      var n := |y| - 1;
      assert (x + y)[..|x + y| - 1] == x + y[..n];
      assert (mask + Arrived(|y|, k))[..|x + y| - 1] == mask + Arrived(n, if k <= n then k else n);
      MaskedTail(g, m, a, x, mask, y[..n], if k <= n then k else n);
      if k <= n {
        assert y[..n][..k] == y[..k];
      } else {
        assert y[..k] == y && y[..n][..n] == y[..n];
      }
    }
  }

  /** A chunk of which `k` bytes arrive, as one page write. */
  lemma {:induction false} ChunkArrives(g: Geometry, m: seq<Byte>, addr: nat, x: seq<Byte>, mask: seq<bool>,
                                        y: seq<Byte>, k: nat, seen: nat)
    requires Sane(g) && |m| == g.size && |mask| == |x| && k <= |y| && seen == Mod(addr + |x|, g.size)
    requires Mod(seen, g.page) + |y| <= g.page
    ensures PageWrite(g, Masked(g, m, addr, x, mask), seen, y[..k])
              == Masked(g, m, addr, x + y, mask + Arrived(|y|, k))
  {
    ModSmall(seen, g.size);
    var m1 := Masked(g, m, addr, x, mask);
    hide *;
    PageWriteIsFlat(g, m1, seen, y[..k]);
    FlatMod(g, m1, seen, addr + |x|, y[..k]);
    MaskedTail(g, m, addr, x, mask, y, k);
  }

  lemma {:induction false} MaskedAt(g: Geometry, m: seq<Byte>, a: nat, data: seq<Byte>, mask: seq<bool>, j: nat)
    requires |m| == g.size > 0 && |mask| == |data| && a + |data| <= g.size && j < g.size
    ensures Masked(g, m, a, data, mask)[j] ==
      if a <= j < a + |data| && mask[j - a] then Combine(g.cell, m[j], data[j - a]) else m[j]
    decreases |data|
  {
    hide Mod, Combine;
    if data != [] {
      var n := |data| - 1;
      MaskedAt(g, m, a, data[..n], mask[..n], j);
      ModSmall(a + n, g.size);
    }
  }

  ghost predicate NoHole(mask: seq<bool>) {
    forall i, j :: 0 <= i < j < |mask| && mask[j] ==> mask[i]
  }

  ghost predicate IsPrefixWrite(g: Geometry, m: seq<Byte>, a: nat, data: seq<Byte>, mask: seq<bool>, n: nat)
    requires |m| == g.size > 0 && |mask| == |data| && n <= |data|
  {
    Masked(g, m, a, data, mask) == Flat(g, m, a, data[..n])
  }

  /** On an EEPROM, what arrived is for every content a flat write of some prefix of the data if and only if no byte
      is missing before one that arrived. */
  lemma {:induction false} PrefixExactly(g: Geometry, a: nat, mask: seq<bool>)
    requires g.cell == Eeprom && a + |mask| <= g.size && g.size > 0
    ensures (forall m: seq<Byte>, data: seq<Byte> :: |m| == g.size && |data| == |mask| ==>
               exists n: nat :: n <= |data| && IsPrefixWrite(g, m, a, data, mask, n))
            <==> NoHole(mask)
  {
    hide Masked, Flat;
    if NoHole(mask) {
      forall m: seq<Byte>, data: seq<Byte> | |m| == g.size && |data| == |mask|
        ensures exists n: nat :: n <= |data| && IsPrefixWrite(g, m, a, data, mask, n)
      {
        var n := FirstMissing(mask);
        assert mask == Arrived(|mask|, n);
        PrefixWrite(g, m, a, data, n);
      }
    } else {
      var i, j :| 0 <= i < j < |mask| && mask[j] && !mask[i];
      HoleIsNoPrefix(g, a, mask, i, j);
    }
  }

  ghost function FirstMissing(mask: seq<bool>): (n: nat)
    ensures n <= |mask| && (n < |mask| ==> !mask[n]) && forall i :: 0 <= i < n ==> mask[i]
  {
    if mask == [] then 0
    else
      var n := FirstMissing(mask[..|mask| - 1]);
      if n == |mask| - 1 && mask[n] then |mask| else n
  }

  lemma {:induction false} PrefixWrite(g: Geometry, m: seq<Byte>, a: nat, data: seq<Byte>, n: nat)
    requires |m| == g.size > 0 && n <= |data|
    ensures IsPrefixWrite(g, m, a, data, Arrived(|data|, n), n)
  {
    MaskedTail(g, m, a, [], [], data, n);
    assert [] + data == data && [] + Arrived(|data|, n) == Arrived(|data|, n);
    hide Flat, Arrived;
  }

  lemma {:induction false} HoleIsNoPrefix(g: Geometry, a: nat, mask: seq<bool>, i: nat, j: nat)
    requires g.cell == Eeprom && a + |mask| <= g.size && i < j < |mask| && mask[j] && !mask[i]
    ensures exists m: seq<Byte>, data: seq<Byte> :: |m| == g.size && |data| == |mask|
              && forall n: nat :: n <= |data| ==> !IsPrefixWrite(g, m, a, data, mask, n)
  {
    hide Masked, Flat;
    var m: seq<Byte>, data: seq<Byte> := seq(g.size, _ => 0), seq(|mask|, _ => 1);
    MaskedAt(g, m, a, data, mask, a + i);
    MaskedAt(g, m, a, data, mask, a + j);
    forall n: nat | n <= |data| ensures !IsPrefixWrite(g, m, a, data, mask, n) {
      FlatAt(g, m, a, data[..n], a + i);
      FlatAt(g, m, a, data[..n], a + j);
    }
  }

  // ---------- flash ----------

  ghost predicate IsErased(m: seq<Byte>, start: nat, length: nat) {
    start + length <= |m| && forall i :: start <= i < start + length ==> m[i] == 0xFF
  }

  lemma {:induction false} AndErased(b: Byte)
    ensures And(0xFF, b) == b
  {
    assert 0xFF as bv8 & b as bv8 == b as bv8;
  }

  /** After an erase, a write stores exactly its data and touches nothing else. */
  lemma {:induction false} EraseThenWrite(g: Geometry, m: seq<Byte>, a: nat, data: seq<Byte>, j: nat)
    requires g.cell == Flash && |m| == g.size > 0 && IsErased(m, a, |data|) && j < g.size
    ensures Flat(g, m, a, data)[j] == if a <= j < a + |data| then data[j - a] else m[j]
  {
    FlatAt(g, m, a, data, j);
    if a <= j < a + |data| {
      AndErased(data[j - a]);
    }
  }

  /** Only an erased cell of a flash stores whatever is written to it. */
  lemma {:induction false} FlashStoresExactly(before: Byte)
    ensures (forall given: Byte :: Combine(Flash, before, given) == given) <==> before == 0xFF
  {
    if before == 0xFF {
      forall given: Byte ensures Combine(Flash, before, given) == given {
        AndErased(given);
      }
    } else {
      AndOnes(before);
      assert Combine(Flash, before, 0xFF) == before;
    }
  }

  lemma {:induction false} AndOnes(a: Byte)
    ensures And(a, 0xFF) == a
  {
    BothWays(a as bv8, 0xFF as bv8);
    AndErased(a);
  }

  lemma {:induction false} BothWays(x: bv8, y: bv8)
    ensures x & y == y & x
  {
  }

  /** An EEPROM needs no erase. */
  lemma {:induction false} WriteStores(g: Geometry, m: seq<Byte>, a: nat, data: seq<Byte>, j: nat)
    requires g.cell == Eeprom && |m| == g.size > 0 && a + |data| <= g.size && j < g.size
    ensures Flat(g, m, a, data)[j] == if a <= j < a + |data| then data[j - a] else m[j]
  {
    FlatAt(g, m, a, data, j);
  }
}
