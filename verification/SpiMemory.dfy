/** The SPI flash and SPI EEPROM drivers, and the chip they talk to. */
module SpiMemory {

  import opened Widths
  import opened Modular
  import opened PagedMemory

  datatype Status = Success | Error | Timeout

  /** A program or erase command as the chip received it: its status bits then, the cells it names. */
  datatype Command = Command(wip: bool, wel: bool, start: nat, length: nat)

  /** The chip was idle and write-enabled, and the data stays within one page. */
  ghost predicate Guarded(g: Geometry, c: Command)
    requires g.page > 0
  {
    !c.wip && c.wel && Mod(c.start, g.page) + c.length <= g.page
  }

  ghost predicate OnlyGuardedAdded(g: Geometry, before: seq<Command>, after: seq<Command>)
    requires g.page > 0
  {
    before <= after && forall i :: |before| <= i < |after| ==> Guarded(g, after[i])
  }

  /** Every cell of the aligned unit around `a` set to 0xFF. */
  function Erased(m: seq<Byte>, a: nat, unit: nat): (m': seq<Byte>)
    requires unit > 0
    ensures |m'| == |m|
  {
    seq(|m|, i requires 0 <= i < |m| => if a - Mod(a, unit) <= i < a - Mod(a, unit) + unit then 0xFF else m[i])
  }

  /** `busy` is the number of status reads until the operation under way is over. `faults` counts what went wrong
      around the chip: transfers that did not start or arrive, and waits that took too long. */
  class Chip {
    const g: Geometry
    var m: seq<Byte>
    var busy: nat
    var latch: bool
    ghost var log: seq<Command>
    ghost var faults: nat

    constructor (g: Geometry, m: seq<Byte>)
      requires Sane(g) && |m| == g.size
      ensures Valid() && this.g == g && this.m == m
    {
      this.g, this.m, busy, latch, log, faults := g, m, 0, false, [], 0;
    }

    ghost predicate Valid()
      reads this
    {
      Sane(g) && |m| == g.size
    }

    /** Whether something that can go wrong went well. */
    method Succeeds() returns (ok: bool)
      modifies this`faults
      ensures if ok then faults == old(faults) else faults > old(faults)
    {
      ok := *;
      if !ok {
        faults := faults + 1;
      }
    }

    /** How many of `n` bytes arrive before the transfer breaks off. */
    method Arrives(n: nat) returns (k: nat)
      modifies this`faults
      ensures k <= n && if k == n then faults == old(faults) else faults > old(faults)
    {
      k := *;
      if k >= n {
        k := n;
      } else {
        faults := faults + 1;
      }
    }

    method ReadStatus() returns (wip: bool)
      modifies this`busy
      ensures wip == (old(busy) > 0)
      ensures busy == if wip then old(busy) - 1 else 0
    {
      wip := busy > 0;
      if wip {
        busy := busy - 1;
      }
    }

    method WriteEnable()
      modifies this`latch
      ensures latch == (old(latch) || busy == 0)
    {
      if busy == 0 {
        latch := true;
      }
    }

    method WriteDisable()
      modifies this`latch
      ensures latch == (old(latch) && busy > 0)
    {
      if busy == 0 {
        latch := false;
      }
    }

    /** A page program; a busy or write-protected chip ignores it. */
    method Program(address: seq<Byte>, data: seq<Byte>)
      requires Valid()
      modifies this
      ensures Valid()
      ensures log == old(log) + [Command(old(busy) > 0, old(latch), Selected(g, address), |data|)]
      ensures if old(busy) == 0 && old(latch)
              then m == PageWrite(g, old(m), Selected(g, address), data) && !latch
              else m == old(m) && latch == old(latch) && busy == old(busy)
      ensures faults == old(faults)
    {
      log := log + [Command(busy > 0, latch, Selected(g, address), |data|)];
      if busy == 0 && latch {
        m := PageWrite(g, m, Selected(g, address), data);
        latch := false;
        busy := *;
      }
    }

    method Erase(address: seq<Byte>, unit: nat)
      requires Valid() && unit > 0
      modifies this
      ensures Valid()
      ensures log == old(log) + [Command(old(busy) > 0, old(latch), Selected(g, address), 0)]
      ensures if old(busy) == 0 && old(latch)
              then m == Erased(old(m), Selected(g, address), unit) && !latch
              else m == old(m) && latch == old(latch) && busy == old(busy)
      ensures faults == old(faults)
    {
      log := log + [Command(busy > 0, latch, Selected(g, address), 0)];
      if busy == 0 && latch {
        m := Erased(m, Selected(g, address), unit);
        latch := false;
        busy := *;
      }
    }

    /** A busy chip answers with nothing useful. */
    method Read(address: seq<Byte>, n: nat) returns (data: seq<Byte>)
      requires Valid()
      ensures |data| == n
      ensures busy == 0 ==> data == Span(m, Selected(g, address), n)
    {
      if busy == 0 {
        data := Span(m, Selected(g, address), n);
      } else {
        data := seq(n, _ => 0xFF);
      }
    }
  }

  /** An operation succeeds exactly when nothing went wrong during it. */
  ghost predicate NoFault(before: nat, after: nat, s: Status) {
    if s == Success then after == before else after > before
  }

  /** What both drivers wait for: the write-in-progress bit to clear. The clock is checked last, so a chip that
      turned ready on the last poll is reported late. */
  method WaitWhileBusy(chip: Chip) returns (s: Status)
    modifies chip`busy, chip`faults
    ensures s == Success ==> chip.busy == 0
    ensures NoFault(old(chip.faults), chip.faults, s)
  {
    var wip := true;
    while wip
      invariant chip.faults == old(chip.faults)
      invariant !wip ==> chip.busy == 0
      decreases chip.busy + if wip then 1 else 0
    {
      var started := chip.Succeeds();
      if !started {
        return Error;
      }
      wip := chip.ReadStatus();
      var inTime := chip.Succeeds();
      if !inTime {
        return Timeout;
      }
    }
    return Success;
  }

  method WriteEnable(chip: Chip) returns (s: Status)
    modifies chip`latch, chip`faults
    ensures NoFault(old(chip.faults), chip.faults, s)
    ensures s == Success ==> chip.latch == (old(chip.latch) || chip.busy == 0)
    ensures s != Success ==> chip.latch == old(chip.latch)
  {
    var started := chip.Succeeds();
    if !started {
      return Error;
    }
    chip.WriteEnable();
    return Success;
  }

  method WriteDisable(chip: Chip) returns (s: Status)
    modifies chip`latch, chip`faults
    ensures NoFault(old(chip.faults), chip.faults, s)
    ensures s == Success ==> chip.latch == (old(chip.latch) && chip.busy > 0)
    ensures s != Success ==> chip.latch == old(chip.latch)
  {
    var started := chip.Succeeds();
    if !started {
      return Error;
    }
    chip.WriteDisable();
    return Success;
  }

  // ---------- flash ----------

  /** The drivers' address check, in 32-bit arithmetic (drivers/flash/flash_spi.c:209, 249). */
  predicate Erasable(size: nat, addr: U32, unit: U32)
    requires unit > 0
  {
    Mod(addr + unit, 0x1_0000_0000) < size && Mod(addr, unit) == 0
  }

  /** The check admits every aligned unit but the memory's last one. The last one can only be named by an address
      so high that the sum wraps. */
  lemma {:induction false} ErasableExactly(size: nat, addr: U32, unit: U32)
    requires unit > 0 && 0 < size < 0x1_0000_0000 && Mod(size, unit) == 0
    ensures Erasable(size, addr, unit) <==>
              Mod(addr, unit) == 0 && (addr + unit < size || 0x1_0000_0000 <= addr + unit < 0x1_0000_0000 + size)
  {
    if addr + unit < 0x1_0000_0000 {
      ModSmall(addr + unit, 0x1_0000_0000);
    } else {
      ModUnique(addr + unit, 0x1_0000_0000, 1, addr + unit - 0x1_0000_0000);
    }
  }

  lemma {:induction false} LastUnitRefused(size: nat, unit: U32)
    requires 0 < unit <= size < 0x1_0000_0000
    ensures !Erasable(size, size - unit, unit)
  {
    ModSmall(size, 0x1_0000_0000);
  }

  lemma {:induction false} StartsAtBoundary(g: Geometry, m: seq<Byte>, addr: nat, data: seq<Byte>)
    requires Sane(g) && |m| == g.size && addr < 0x1_0000_0000
    ensures IsBoundary(g, addr, 0, |data|)
    ensures Flat(g, m, addr, data[..0]) == m
    ensures Mod(addr, 0x1_0000_0000) == addr
  {
    ModSmall(addr, 0x1_0000_0000);
  }

  /** Everything one turn of a write loop needs. */
  lemma {:induction false} NextChunk(g: Geometry, m: seq<Byte>, addr: nat, data: seq<Byte>, n: nat, at: nat)
    requires Sane(g) && |m| == g.size && n < |data| && at == Mod(addr + n, 0x1_0000_0000)
    ensures var c := ChunkLength(g.page, at, |data| - n);
            && 0 < c <= |data| - n
            && Mod(Mod(at, g.size), g.page) + c <= g.page
            && data[n..][..c] == data[n..n + c] && data[n..][c..] == data[n + c..]
            && PageWrite(g, Flat(g, m, addr, data[..n]), Mod(at, g.size), data[n..n + c])
                 == Flat(g, m, addr, data[..n + c])
            && IsBoundary(g, addr, n + c, |data|)
            && Mod(at + c, 0x1_0000_0000) == Mod(addr + (n + c), 0x1_0000_0000)
  {
    hide PageWrite;
    hide Mod;
    hide Flat;
    hide IsBoundary;
    WrappedAddress(g, addr + n, at, |data| - n);
    ChunkContinues(g, m, addr, data, n, Mod(at, g.size));
    ChunkEndsAtBoundary(g, addr, n, |data|);
    ModSum(addr + n, ChunkLength(g.page, at, |data| - n), 0x1_0000_0000);
  }

  lemma {:induction false} NothingPaged(g: Geometry, m: seq<Byte>, a: nat, data: seq<Byte>)
    requires Sane(g) && |m| == g.size && a < g.size
    ensures PageWrite(g, m, a, data[..0]) == m
  {
  }

  /** The first `k` bytes of the next chunk. */
  lemma {:induction false} PartOfChunk(g: Geometry, m: seq<Byte>, addr: nat, data: seq<Byte>, n: nat, at: nat, k: nat)
    requires Sane(g) && |m| == g.size && n < |data| && at == Mod(addr + n, 0x1_0000_0000)
    requires k <= ChunkLength(g.page, at, |data| - n)
    ensures data[n..][..ChunkLength(g.page, at, |data| - n)][..k] == data[n..n + k]
    ensures PageWrite(g, Flat(g, m, addr, data[..n]), Mod(at, g.size), data[n..n + k])
      == Flat(g, m, addr, data[..n + k])
  {
    hide PageWrite, Mod, Flat;
    NextChunk(g, m, addr, data, n, at);
    WrappedAddress(g, addr + n, at, |data| - n);
    PageContinues(g, m, addr, Mod(at, g.size), data[..n], data[n..n + k]);
    assert data[..n] + data[n..n + k] == data[..n + k];
  }

  /** Erase, write, read back: the data, and every byte outside the erased unit as it was. */
  lemma {:induction false} EraseWriteRead(g: Geometry, m: seq<Byte>, addr: nat, unit: nat, data: seq<Byte>)
    requires Sane(g) && g.cell == PagedMemory.Flash && |m| == g.size && unit > 0
    requires Mod(addr, unit) == 0 && |data| <= unit && addr + unit <= g.size
    ensures var after := Flat(g, Erased(m, addr, unit), addr, data);
            && Span(after, addr, |data|) == data
            && forall j :: 0 <= j < g.size && !(addr <= j < addr + unit) ==> after[j] == m[j]
  {
    var clean := Erased(m, addr, unit);
    var after := Flat(g, clean, addr, data);
    assert IsErased(clean, addr, |data|);
    hide IsErased;
    hide Flat;
    forall i | 0 <= i < |data| ensures Span(after, addr, |data|)[i] == data[i] {
      ModSmall(addr + i, g.size);
      EraseThenWrite(g, clean, addr, data, addr + i);
    }
    forall j | 0 <= j < g.size && !(addr <= j < addr + unit) ensures after[j] == m[j] {
      EraseThenWrite(g, clean, addr, data, j);
    }
  }

  class Flash {
    const chip: Chip

    constructor (chip: Chip)
      ensures this.chip == chip
    {
      this.chip := chip;
    }

    /** A program transaction. When it breaks off, the chip programs what it has got; without data, nothing. */
    method ProgramTransaction(addr: U32, data: seq<Byte>) returns (s: Status, ghost k: nat)
      requires chip.Valid()
      modifies chip
      ensures chip.Valid() && NoFault(old(chip.faults), chip.faults, s)
      ensures k <= |data| && (s == Success ==> k == |data|) && (s == Timeout ==> k == 0)
      ensures chip.log == old(chip.log) + (if k == 0 then []
                else [Command(old(chip.busy) > 0, old(chip.latch), Mod(addr, chip.g.size), k)])
      ensures old(chip.busy) == 0 && old(chip.latch) ==>
                chip.m == PageWrite(chip.g, old(chip.m), Mod(addr, chip.g.size), data[..k])
    {
      hide PageWrite, Mod, Selected, Digits;
      SelectedIsMeant(chip.g, addr);
      NothingPaged(chip.g, chip.m, Mod(addr, chip.g.size), data);
      var address := AddressBytes(addr, chip.g.addressBytes);
      var started := chip.Succeeds();
      if !started {
        return Error, 0;
      }
      var arrived := chip.Arrives(|data|);
      k := arrived;
      if arrived > 0 {
        chip.Program(address, data[..arrived]);
      }
      return if arrived == |data| then Success else Error, k;
    }

    method EraseTransaction(addr: U32, unit: nat) returns (s: Status)
      requires chip.Valid() && unit > 0
      modifies chip
      ensures chip.Valid() && NoFault(old(chip.faults), chip.faults, s)
      ensures s != Success ==> chip.m == old(chip.m) && chip.log == old(chip.log)
      ensures s == Success ==>
        chip.log == old(chip.log) + [Command(old(chip.busy) > 0, old(chip.latch), Mod(addr, chip.g.size), 0)]
      ensures s == Success && old(chip.busy) == 0 && old(chip.latch) ==>
                chip.m == Erased(old(chip.m), Mod(addr, chip.g.size), unit)
    {
      var address := AddressBytes(addr, chip.g.addressBytes);
      var delivered := chip.Succeeds();
      if !delivered {
        return Error;
      }
      SelectedIsMeant(chip.g, addr);
      hide Erased;
      hide Mod;
      hide Selected;
      hide Digits;
      chip.Erase(address, unit);
      return Success;
    }

    /** One turn of the write loop: wait, enable, program. */
    method ProgramWhenReady(addr: U32, data: seq<Byte>) returns (s: Status, ghost k: nat)
      requires chip.Valid() && Mod(Mod(addr, chip.g.size), chip.g.page) + |data| <= chip.g.page
      modifies chip
      ensures chip.Valid() && NoFault(old(chip.faults), chip.faults, s)
      ensures OnlyGuardedAdded(chip.g, old(chip.log), chip.log)
      ensures k <= |data| && (s == Success ==> k == |data|) && (s == Timeout ==> k == 0)
      ensures chip.m == PageWrite(chip.g, old(chip.m), Mod(addr, chip.g.size), data[..k])
    {
      hide PageWrite, Mod;
      NothingPaged(chip.g, chip.m, Mod(addr, chip.g.size), data);
      k := 0;
      s := WaitWhileBusy(chip);
      if s != Success {
        return;
      }
      s := WriteEnable(chip);
      if s != Success {
        return;
      }
      s, k := ProgramTransaction(addr, data);
    }

    /** On every outcome the memory is one flat write of a prefix of the data: all of it on success, and a whole
        number of chunks unless the data of the last one broke off on the bus. */
    method FlashWriteBlock(addr: U32, data: seq<Byte>) returns (s: Status, ghost written: nat, ghost torn: bool)
      requires chip.Valid()
      modifies chip
      ensures chip.Valid() && NoFault(old(chip.faults), chip.faults, s)
      ensures written <= |data| && (torn ==> s == Error)
      ensures !torn ==> IsBoundary(chip.g, addr, written, |data|)
      ensures chip.m == Flat(chip.g, old(chip.m), addr, data[..written])
      ensures s == Success ==> written == |data| && chip.busy == 0 && !chip.latch
      ensures OnlyGuardedAdded(chip.g, old(chip.log), chip.log)
    {
      hide PageWrite;
      hide Mod;
      hide Flat;
      hide Guarded;
      hide ChunkLength;
      hide IsBoundary;
      ghost var m0 := chip.m;
      written, torn := 0, false;
      StartsAtBoundary(chip.g, m0, addr, data);
      var at: U32, rest := addr, data;
      while rest != []
        invariant chip.Valid()
        invariant written <= |data| && rest == data[written..] && at == Mod(addr + written, 0x1_0000_0000)
        invariant IsBoundary(chip.g, addr, written, |data|)
        invariant chip.m == Flat(chip.g, m0, addr, data[..written]) && chip.faults == old(chip.faults)
        invariant OnlyGuardedAdded(chip.g, old(chip.log), chip.log)
        decreases |rest|
      {
        var length := ChunkLength(chip.g.page, at, |rest|);
        NextChunk(chip.g, m0, addr, data, written, at);
        ghost var k: nat;
        s, k := ProgramWhenReady(at, rest[..length]);
        PartOfChunk(chip.g, m0, addr, data, written, at, k);
        if s != Success {
          if 0 < k {
            torn := true;
          }
          written := written + k;
          return;
        }
        rest := rest[length..];
        at := Mod(at + length, 0x1_0000_0000);
        written := written + length;
      }
      s := WaitWhileBusy(chip);
      if s != Success {
        return;
      }
      s := WriteDisable(chip);
    }

    /** Zeros on failure, the memory's bytes on success. */
    method FlashReadBlock(addr: U32, n: nat) returns (s: Status, data: seq<Byte>)
      requires chip.Valid()
      modifies chip`busy, chip`faults
      ensures |data| == n && NoFault(old(chip.faults), chip.faults, s)
      ensures s == Success ==> data == Span(chip.m, addr, n)
      ensures s != Success ==> forall i :: 0 <= i < n ==> data[i] == 0
    {
      s := WaitWhileBusy(chip);
      if s != Success {
        return s, seq(n, _ => 0);
      }
      var delivered := chip.Succeeds();
      if !delivered {
        return Error, seq(n, _ => 0);
      }
      var address := AddressBytes(addr, chip.g.addressBytes);
      SelectedIsMeant(chip.g, addr);
      SpanWraps(chip.m, addr, n);
      data := chip.Read(address, n);
    }

    /** `flash_erase_sector` and `flash_erase_block`, which differ only in the unit. */
    method FlashEraseUnit(addr: U32, unit: U32) returns (s: Status)
      requires chip.Valid() && unit > 0
      modifies chip
      ensures chip.Valid()
      ensures OnlyGuardedAdded(chip.g, old(chip.log), chip.log)
      ensures if Erasable(chip.g.size, addr, unit) then NoFault(old(chip.faults), chip.faults, s)
              else s == Error && chip.m == old(chip.m) && chip.log == old(chip.log)
      ensures chip.m == old(chip.m) || chip.m == Erased(old(chip.m), Mod(addr, chip.g.size), unit)
      ensures s == Success ==> chip.m == Erased(old(chip.m), Mod(addr, chip.g.size), unit) && chip.busy == 0
    {
      hide Erased;
      hide Mod;
      if !Erasable(chip.g.size, addr, unit) {
        return Error;
      }
      s := WaitWhileBusy(chip);
      if s != Success {
        return;
      }
      s := WriteEnable(chip);
      if s != Success {
        return;
      }
      s := EraseTransaction(addr, unit);
      if s != Success {
        return;
      }
      s := WaitWhileBusy(chip);
    }
  }

  // ---------- EEPROM ----------

  class SpiEeprom {
    const chip: Chip

    constructor (chip: Chip)
      ensures this.chip == chip
    {
      this.chip := chip;
    }

    /** The source's early returns show only in the ghost result: the caller is told nothing. A transfer that breaks
        off goes unnoticed. */
    method ProgramWhenReady(addr: nat, data: seq<Byte>) returns (ok: bool, ghost k: nat)
      requires chip.Valid() && Mod(Mod(addr, chip.g.size), chip.g.page) + |data| <= chip.g.page
      modifies chip
      ensures chip.Valid() && chip.faults >= old(chip.faults) && (!ok ==> k == 0 && chip.faults > old(chip.faults))
      ensures k <= |data| && (chip.faults == old(chip.faults) ==> k == |data|)
      ensures OnlyGuardedAdded(chip.g, old(chip.log), chip.log)
      ensures chip.m == PageWrite(chip.g, old(chip.m), Mod(addr, chip.g.size), data[..k])
    {
      hide PageWrite, Mod, Selected, Digits;
      NothingPaged(chip.g, chip.m, Mod(addr, chip.g.size), data);
      k := 0;
      var s := WaitWhileBusy(chip);
      if s != Success {
        return false, 0;
      }
      s := WriteEnable(chip);
      if s != Success {
        return false, 0;
      }
      var started := chip.Succeeds();
      if !started {
        return false, 0;
      }
      var address := AddressBytes(addr, chip.g.addressBytes);
      SelectedIsMeant(chip.g, addr);
      var arrived := chip.Arrives(|data|);
      if arrived > 0 {
        chip.Program(address, data[..arrived]);
      }
      return true, arrived;
    }

    /** On every outcome the memory is the flat write of the bytes that arrived: page by page a prefix, and nothing
        behind the chunk at which the driver stops. Without a fault that is all of the data. */
    method EepromWriteBlock(data: seq<Byte>, addr: U32) returns (ghost mask: seq<bool>, ghost stopped: bool)
      requires chip.Valid()
      modifies chip
      ensures chip.Valid() && chip.faults >= old(chip.faults)
      ensures IsBoundary(chip.g, addr, |mask|, |data|) && PageByPage(chip.g.page, addr, mask)
      ensures chip.m == Masked(chip.g, old(chip.m), addr, data[..|mask|], mask)
      ensures if stopped then chip.faults > old(chip.faults) else |mask| == |data|
      ensures chip.faults == old(chip.faults) ==> chip.m == Flat(chip.g, old(chip.m), addr, data)
      ensures OnlyGuardedAdded(chip.g, old(chip.log), chip.log)
    {
      hide PageWrite, Mod, Flat, Masked, Guarded, ChunkLength, IsBoundary, PageByPage, Arrived;
      ghost var m0 := chip.m;
      mask, stopped := [], false;
      NothingMasked(chip.g, m0, addr, data);
      StartsAtBoundary(chip.g, m0, addr, data);
      var at: U32, rest := addr, data;
      while rest != []
        invariant chip.Valid() && chip.faults >= old(chip.faults)
        invariant |mask| <= |data| && rest == data[|mask|..] && at == Mod(addr + |mask|, 0x1_0000_0000)
        invariant IsBoundary(chip.g, addr, |mask|, |data|) && PageByPage(chip.g.page, addr, mask)
        invariant chip.m == Masked(chip.g, m0, addr, data[..|mask|], mask)
        invariant chip.faults == old(chip.faults) ==> forall i :: 0 <= i < |mask| ==> mask[i]
        invariant OnlyGuardedAdded(chip.g, old(chip.log), chip.log)
        decreases |rest|
      {
        var length := ChunkLength(chip.g.page, at, |rest|);
        NextChunk(chip.g, m0, addr, data, |mask|, at);
        var ok, k := ProgramWhenReady(at, rest[..length]);
        if !ok {
          NothingPaged(chip.g, Masked(chip.g, m0, addr, data[..|mask|], mask), Mod(at, chip.g.size), rest[..length]);
          stopped := true;
          return;
        }
        MaskedNext(chip.g, m0, addr, data, mask, at, k);
        mask := mask + Arrived(length, k);
        rest := rest[length..];
        at := Mod(at + length, 0x1_0000_0000);
      }
      if chip.faults == old(chip.faults) {
        AllArrived(chip.g, m0, addr, data[..|mask|], mask);
        assert data[..|mask|] == data;
      }
      var _ := WriteDisable(chip);
    }

    /** Zeros when the read does not start. A read that starts and breaks off goes unnoticed. */
    method EepromReadBlock(addr: U32, n: nat) returns (data: seq<Byte>, ghost started: bool)
      requires chip.Valid()
      modifies chip`busy, chip`faults
      ensures |data| == n && chip.faults >= old(chip.faults)
      ensures chip.faults == old(chip.faults) ==> started && data == Span(chip.m, addr, n)
      ensures !started ==> data == seq(n, _ => 0)
    {
      started := false;
      var s := WaitWhileBusy(chip);
      if s != Success {
        return seq(n, _ => 0), false;
      }
      var begun := chip.Succeeds();
      if !begun {
        return seq(n, _ => 0), false;
      }
      started := true;
      var address := AddressBytes(addr, chip.g.addressBytes);
      SelectedIsMeant(chip.g, addr);
      SpanWraps(chip.m, addr, n);
      data := chip.Read(address, n);
      var received := chip.Arrives(n);
      if received < n {
        data := *;
        data := seq(n, i requires 0 <= i < n => if i < |data| then data[i] else 0);
      }
    }
  }

  lemma {:induction false} NothingMasked(g: Geometry, m: seq<Byte>, addr: nat, data: seq<Byte>)
    requires |m| == g.size > 0
    ensures Masked(g, m, addr, data[..0], []) == m && (g.page > 0 ==> PageByPage(g.page, addr, []))
  {
  }

  lemma {:induction false} BoundaryMeans(g: Geometry, addr: nat, n: nat, length: nat)
    requires g.page > 0 && IsBoundary(g, addr, n, length) && n < length
    ensures n == 0 || Mod(addr + n, g.page) == 0
  {
  }

  /** The next chunk, of which `k` bytes arrive. */
  lemma {:induction false} MaskedNext(g: Geometry, m: seq<Byte>, addr: nat, data: seq<Byte>, mask: seq<bool>, at: nat,
                                      k: nat)
    requires Sane(g) && |m| == g.size && |mask| < |data| && at == Mod(addr + |mask|, 0x1_0000_0000)
    requires k <= ChunkLength(g.page, at, |data| - |mask|)
    requires IsBoundary(g, addr, |mask|, |data|) && PageByPage(g.page, addr, mask)
    ensures var n, c := |mask|, ChunkLength(g.page, at, |data| - |mask|);
            && data[n..][..c][..k] == data[n..n + k]
            && PageWrite(g, Masked(g, m, addr, data[..n], mask), Mod(at, g.size), data[n..n + k])
                 == Masked(g, m, addr, data[..n + c], mask + Arrived(c, k))
            && PageByPage(g.page, addr, mask + Arrived(c, k))
  {
    hide PageWrite, Mod, Masked, Flat, Arrived, PageByPage, IsBoundary, ChunkLength, Pow256, Combine;
    var n, c := |mask|, ChunkLength(g.page, at, |data| - |mask|);
    BoundaryMeans(g, addr, n, |data|);
    NextPageArrives(g.page, addr, mask, c, k);
    NextChunk(g, m, addr, data, n, at);
    WrappedAddress(g, addr + n, at, |data| - n);
    ChunkArrives(g, m, addr, data[..n], mask, data[n..n + c], k, Mod(at, g.size));
    assert data[..n] + data[n..n + c] == data[..n + c];
    assert data[n..n + c][..k] == data[n..n + k];
  }
}
