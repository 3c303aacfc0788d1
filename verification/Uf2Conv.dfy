/** The UF2 converter: its loops over blocks and records, and the globals they share. */
module Uf2Conv {

  import opened Widths
  import opened Options
  import opened Uf2
  import opened Uf2RoundTrip

  /** One block under construction. */
  class Block {
    const addr: nat
    const bytes: array<Byte>

    constructor (addr: nat)
      ensures this.addr == addr && fresh(bytes) && bytes[..] == Zeros(256)
    {
      this.addr := addr;
      bytes := new Byte[256](_ => 0);
    }

    /** Fails when a header word does not fit in 32 bits. */
    method Encode(family: nat, device: nat, number: nat, count: nat) returns (r: Option<seq<Byte>>)
      requires bytes.Length == 256
      ensures r == if Fits(family, addr, number, count) && device < WORD_LIMIT
                   then Some(EncodedBlock(family, device, addr, bytes[..], number, count)) else None
    {
      hide Words, Word;
      var flags := 0;
      if family != 0 {
        flags := flags + HAS_FAMILY;
      }
      if device != 0 {
        flags := flags + HAS_DEVICE;
      }
      if !Fits(family, addr, number, count) || device >= WORD_LIMIT {
        return None;
      }
      var hd := Words([UF2_MAGIC_START0, UF2_MAGIC_START1, flags, addr, 256, number, count, family]);
      ghost var header := hd;
      hd := hd + bytes[..];
      if device != 0 {
        hd := hd + [0x08, 0x29, 0xA7, 0xC8];
        hd := hd + Word(device);
      }
      ghost var start := hd;
      while |hd| < 512 - 4
        invariant |start| <= |hd| <= 508 && hd == start + Zeros(|hd| - |start|)
      {
        hd := hd + [0];
      }
      hd := hd + Word(UF2_MAGIC_END);
      assert device != 0 ==>
        hd == header + bytes[..] + ([0x08, 0x29, 0xA7, 0xC8] + Word(device) + Zeros(212) + Word(UF2_MAGIC_END));
      assert device == 0 ==> hd == header + bytes[..] + (Zeros(220) + Word(UF2_MAGIC_END));
      return Some(hd);
    }
  }

  predicate Fits(family: nat, addr: nat, number: nat, count: nat) {
    family < WORD_LIMIT && addr < WORD_LIMIT && number < WORD_LIMIT && count < WORD_LIMIT
  }

  /** What the first `n` pages become, or nothing when one of them cannot be packed. */
  ghost function FilePrefix(family: nat, device: nat, pages: seq<Page>, n: nat): Option<seq<Byte>>
    requires WholePages(pages) && n <= |pages|
  {
    if n == 0 then Some([])
    else
      match FilePrefix(family, device, pages, n - 1)
      case None => None
      case Some(b) =>
        if Fits(family, pages[n - 1].addr, n - 1, |pages|) && device < WORD_LIMIT
        then Some(b + EncodedBlock(family, device, pages[n - 1].addr, pages[n - 1].data, n - 1, |pages|))
        else None
  }

  /** A file is written exactly when every header word fits, and then it is the encoded pages. */
  lemma {:induction false} FileIsEncoded(family: nat, device: nat, pages: seq<Page>, n: nat)
    requires WholePages(pages) && n <= |pages|
    ensures FilePrefix(family, device, pages, n) ==
      if n == 0
         || (family < WORD_LIMIT && |pages| < WORD_LIMIT && device < WORD_LIMIT
             && forall i :: 0 <= i < n ==> pages[i].addr < WORD_LIMIT)
      then Some(EncodedPrefix(family, device, pages, n)) else None
  {
    hide EncodedBlock;
    if n > 0 {
      FileIsEncoded(family, device, pages, n - 1);
    }
  }

  ghost function File(family: nat, device: nat, pages: seq<Page>): Option<seq<Byte>>
    requires WholePages(pages)
  {
    FilePrefix(family, device, pages, |pages|)
  }

  /** The address of the first data record, empty or not. */
  function FirstAddress(records: seq<Record>, upper: nat): Option<nat>
    decreases |records|
  {
    if records == [] || records[0] == EndOfFile then None
    else if records[0].Data? then Some(upper + records[0].offset)
    else FirstAddress(records[1..], BaseAfter(upper, records[0]))
  }

  class Converter {
    var appstartaddr: Option<nat>
    var familyid: nat
    var devicetype: nat

    constructor ()
      ensures appstartaddr == Some(0x2000) && familyid == 0 && devicetype == 0
    {
      appstartaddr, familyid, devicetype := Some(0x2000), 0, 0;
    }

    /** The zero words after the data of every block. */
    method DataPadding() returns (datapadding: seq<Byte>)
      ensures datapadding == Zeros(220)
    {
      datapadding := [];
      while |datapadding| < 512 - 256 - 32 - 4
        invariant |datapadding| % 4 == 0 && |datapadding| <= 220 && datapadding == Zeros(|datapadding|)
      {
        datapadding := datapadding + [0, 0, 0, 0];
      }
    }

    method PackBlock(addr: nat, chunk: seq<Byte>, datapadding: seq<Byte>, number: nat, count: nat)
      returns (r: Option<seq<Byte>>)
      requires |chunk| == 256 && datapadding == Zeros(220)
      ensures r ==
        if Fits(familyid, addr, number, count) then Some(EncodedBlock(familyid, 0, addr, chunk, number, count))
        else None
    {
      hide Words, Word;
      var flags := 0;
      if familyid != 0 {
        flags := flags + HAS_FAMILY;
      }
      if !Fits(familyid, addr, number, count) {
        return None;
      }
      var hd := Words([UF2_MAGIC_START0, UF2_MAGIC_START1, flags, addr, 256, number, count, familyid]);
      var block := hd + chunk + datapadding + Word(UF2_MAGIC_END);
      assert block == hd + chunk + (datapadding + Word(UF2_MAGIC_END));
      return Some(block);
    }

    method ConvertToUf2(content: seq<Byte>) returns (r: Option<seq<Byte>>)
      ensures appstartaddr == None ==> r == if content == [] then Some([]) else None
      ensures appstartaddr.Some? ==> r == File(familyid, 0, ContentPages(content, appstartaddr.value))
    {
      hide EncodedBlock, FilePrefix, Fits, Chunk;
      var datapadding := DataPadding();
      var numblocks := (|content| + 255) / 256;
      var outp: seq<Byte> := [];
      if appstartaddr.Some? {
        FileStarts(familyid, 0, ContentPages(content, appstartaddr.value));
      }
      for blockno: nat := 0 to numblocks
        invariant appstartaddr == None ==> blockno == 0 && outp == []
        invariant appstartaddr.Some? ==>
          Some(outp) == FilePrefix(familyid, 0, ContentPages(content, appstartaddr.value), blockno)
      {
        var ptr := 256 * blockno;
        var chunk := PadChunk(content, blockno);
        if appstartaddr == None {
          return None;
        }
        FileNext(familyid, 0, ContentPages(content, appstartaddr.value), blockno, outp);
        var block := PackBlock(ptr + appstartaddr.value, chunk, datapadding, blockno, numblocks);
        if block == None {
          return None;
        }
        outp := outp + block.value;
      }
      return Some(outp);
    }

    method PadChunk(content: seq<Byte>, blockno: nat) returns (chunk: seq<Byte>)
      requires blockno < NumBlocks(content)
      ensures chunk == Chunk(content, blockno)
    {
      var ptr := 256 * blockno;
      var end := if ptr + 256 <= |content| then ptr + 256 else |content|;
      chunk := content[ptr..end];
      while |chunk| < 256
        invariant end - ptr <= |chunk| <= 256 && chunk == content[ptr..end] + Zeros(|chunk| - (end - ptr))
      {
        chunk := chunk + [0];
      }
    }

    /** The zero words that bridge a gap. */
    method PadOut(outp: seq<Byte>, gap: nat) returns (padded: seq<Byte>)
      requires gap % 4 == 0
      ensures padded == outp + Zeros(gap)
    {
      var padding: int := gap;
      padded := outp;
      while padding > 0
        invariant 0 <= padding <= gap && padding % 4 == 0 && padded == outp + Zeros(gap - padding)
      {
        padding := padding - 4;
        padded := padded + [0, 0, 0, 0];
      }
    }

    method ConvertFromUf2(buf: seq<Byte>) returns (r: Option<seq<Byte>>)
      modifies this`appstartaddr
      ensures match ReadAll(familyid, old(appstartaddr), buf)
              case Failed(base) => r == None && appstartaddr == base
              case Running(reader) => r == Some(reader.out) && appstartaddr == reader.base
    {
      hide Field, Flag, Zeros, Found, ReadPrefix;
      ReadStarts(familyid, appstartaddr, buf);
      var numblocks := |buf| / 512;
      var curraddr: Option<nat>, currfamilyid: Option<nat> := None, None;
      var found: map<nat, nat> := map[];
      var outp: seq<Byte> := [];
      for blockno: nat := 0 to numblocks
        invariant ReadPrefix(familyid, old(appstartaddr), buf, blockno)
          == Running(Reader(curraddr, currfamilyid, found, outp, appstartaddr))
      {
        ReadNext(familyid, old(appstartaddr), buf, blockno, Reader(curraddr, currfamilyid, found, outp, appstartaddr));
        FailureLasts(familyid, old(appstartaddr), buf, blockno + 1, numblocks);
        var ptr := blockno * 512;
        var block := buf[ptr..ptr + 512];
        var flags, newaddr, datalen, family := Field(block, 2), Field(block, 3), Field(block, 4), Field(block, 7);
        if Field(block, 0) != UF2_MAGIC_START0 || Field(block, 1) != UF2_MAGIC_START1 {
          return None;
        }
        if Flag(flags, NOT_MAIN_FLASH) {
          continue;
        }
        if datalen > 476 {
          return None;
        }
        if Flag(flags, HAS_FAMILY) && currfamilyid == None {
          currfamilyid := Some(family);
        }
        if curraddr == None || (Flag(flags, HAS_FAMILY) && Some(family) != currfamilyid) {
          currfamilyid := Some(family);
          curraddr := Some(newaddr);
          if familyid == 0 || familyid == family {
            appstartaddr := Some(newaddr);
          }
        }
        var padding := newaddr - curraddr.value;
        if padding < 0 || padding > MAX_PADDING || padding % 4 != 0 {
          return None;
        }
        outp := PadOut(outp, padding);
        if familyid == 0 || (Flag(flags, HAS_FAMILY) && familyid == family) {
          outp := outp + block[32..32 + datalen];
        }
        curraddr := Some(newaddr + datalen);
        if Flag(flags, HAS_FAMILY) {
          found := Found(found, family, newaddr);
        }
        if blockno == numblocks - 1 && |found| > 1 && familyid == 0 {
          outp := [];
          appstartaddr := Some(0);
        }
      }
      return Some(outp);
    }

    /** Stores one byte in the current block, or in a new one. */
    method StoreByte(blocks: seq<Block>, addr: nat, value: Byte) returns (blocks': seq<Block>)
      requires Separate(blocks)
      modifies set b <- blocks :: b.bytes
      ensures Separate(blocks') && forall b <- blocks' :: b in blocks || fresh(b.bytes)
      ensures Pages(blocks') == Placed(old(Pages(blocks)), Written(addr, value))
    {
      hide PageOf, Zeros;
      PageStartsItself(addr);
      blocks' := blocks;
      if blocks == [] || PageOf(blocks[|blocks| - 1].addr) != PageOf(addr) {
        var b := new Block(PageOf(addr));
        blocks' := blocks + [b];
      }
      ghost var n, pages := |blocks'| - 1, Pages(blocks');
      assert pages ==
        if |blocks'| > |blocks| then old(Pages(blocks)) + [Page(PageOf(addr), Zeros(256))] else old(Pages(blocks));
      var current := blocks'[|blocks'| - 1];
      current.bytes[addr % 256] := value;
      assert Pages(blocks') == pages[n := Page(current.addr, pages[n].data[addr % 256 := value])];
    }

    method StoreRecord(blocks: seq<Block>, start: nat, bytes: seq<Byte>, ghost cells: seq<Written>)
      returns (blocks': seq<Block>)
      requires Separate(blocks) && Pages(blocks) == PagesOf(cells)
      modifies set b <- blocks :: b.bytes
      ensures Separate(blocks') && forall b <- blocks' :: b in blocks || fresh(b.bytes)
      ensures Pages(blocks') == PagesOf(cells + CellsOf(start, bytes))
    {
      hide PagesOf, Placed, Pages;
      blocks' := blocks;
      assert cells + CellsOf(start, bytes)[..0] == cells;
      for i: nat := 0 to |bytes|
        invariant Separate(blocks') && forall b <- blocks' :: b in blocks || fresh(b.bytes)
        invariant Pages(blocks') == PagesOf(cells + CellsOf(start, bytes)[..i])
      {
        var w := CellsOf(start, bytes)[i];
        assert cells + CellsOf(start, bytes)[..i + 1] == cells + CellsOf(start, bytes)[..i] + [w];
        PagesNext(cells + CellsOf(start, bytes)[..i], w);
        blocks' := StoreByte(blocks', start + i, bytes[i]);
      }
      assert CellsOf(start, bytes)[..|bytes|] == CellsOf(start, bytes);
    }

    /** The records up to the end record, gathered into blocks. */
    method GatherBlocks(records: seq<Record>) returns (blocks: seq<Block>)
      modifies this`appstartaddr
      ensures appstartaddr == FirstAddress(records, 0)
      ensures Separate(blocks) && forall b <- blocks :: fresh(b.bytes)
      ensures Pages(blocks) == PagesOf(Cells(records, 0))
    {
      hide PagesOf, Pages, CellsOf;
      appstartaddr := None;
      var upper: nat := 0;
      blocks := [];
      ghost var done: seq<Written> := [];
      NoPages();
      var k: nat := 0;
      while k < |records| && records[k] != EndOfFile
        invariant k <= |records|
        invariant Separate(blocks) && forall b <- blocks :: fresh(b.bytes)
        invariant Pages(blocks) == PagesOf(done) && Cells(records, 0) == done + Cells(records[k..], upper)
        invariant FirstAddress(records, 0) ==
          if appstartaddr == None then FirstAddress(records[k..], upper) else appstartaddr
      {
        CellsNext(records, k, upper, done);
        var r := records[k];
        match r {
          case LinearBase(high) => upper := high * 0x1_0000;
          case SegmentBase(segment) => upper := segment * 0x10;
          case Data(offset, bytes) =>
            var addr := upper + offset;
            if appstartaddr == None {
              appstartaddr := Some(addr);
            }
            blocks := StoreRecord(blocks, addr, bytes, done);
            done := done + CellsOf(addr, bytes);
          case Other =>
        }
        k := k + 1;
      }
      CellsEnd(records[k..], upper);
      assert done + [] == done;
    }

    method ConvertFromHexToUf2(records: seq<Record>) returns (r: Option<seq<Byte>>)
      modifies this`appstartaddr
      ensures appstartaddr == FirstAddress(records, 0)
      ensures r == File(familyid, devicetype, PagesOf(Cells(records, 0)))
    {
      hide EncodedBlock, FilePrefix, Fits, PagesOf;
      var blocks := GatherBlocks(records);
      var numblocks := |blocks|;
      ghost var pages := Pages(blocks);
      var resfile: seq<Byte> := [];
      FileStarts(familyid, devicetype, pages);
      for i: nat := 0 to numblocks
        invariant appstartaddr == FirstAddress(records, 0) && Pages(blocks) == pages
        invariant Some(resfile) == FilePrefix(familyid, devicetype, pages, i)
      {
        FileNext(familyid, devicetype, pages, i, resfile);
        assert pages[i] == Page(blocks[i].addr, blocks[i].bytes[..]);
        var encoded := blocks[i].Encode(familyid, devicetype, i, numblocks);
        if encoded == None {
          return None;
        }
        resfile := resfile + encoded.value;
      }
      return Some(resfile);
    }
  }

  /** The blocks share no storage. */
  ghost predicate Separate(blocks: seq<Block>) {
    && (forall i :: 0 <= i < |blocks| ==> blocks[i].bytes.Length == 256 && PageOf(blocks[i].addr) == blocks[i].addr)
    && forall i, j :: 0 <= i < j < |blocks| ==> blocks[i].bytes != blocks[j].bytes
  }

  ghost function Pages(blocks: seq<Block>): (pages: seq<Page>)
    requires Separate(blocks)
    reads set b <- blocks :: b.bytes
    ensures |pages| == |blocks| && WholePages(pages)
  {
    seq(|blocks|,
        i requires 0 <= i < |blocks| reads set b <- blocks :: b.bytes => Page(blocks[i].addr, blocks[i].bytes[..]))
  }

  lemma {:induction false} PageStartsItself(addr: nat)
    ensures PageOf(PageOf(addr)) == PageOf(addr)
  {
  }

  lemma {:induction false} NoPages()
    ensures Pages([]) == PagesOf([])
  {
  }

  lemma {:induction false} CellsEnd(records: seq<Record>, upper: nat)
    requires records == [] || records[0] == EndOfFile
    ensures Cells(records, upper) == [] && FirstAddress(records, upper) == None
  {
  }

  /** What one record contributes. */
  lemma {:induction false} CellsNext(records: seq<Record>, k: nat, upper: nat, done: seq<Written>)
    requires k < |records| && records[k] != EndOfFile
    ensures var r := records[k];
            var after := BaseAfter(upper, r);
            && done + Cells(records[k..], upper)
               == (if r.Data? then done + CellsOf(upper + r.offset, r.bytes) else done) + Cells(records[k + 1..], after)
            && FirstAddress(records[k..], upper) ==
                 if r.Data? then Some(upper + r.offset) else FirstAddress(records[k + 1..], after)
  {
    hide CellsOf;
    assert records[k..][1..] == records[k + 1..];
  }

  lemma {:induction false} FileStarts(family: nat, device: nat, pages: seq<Page>)
    requires WholePages(pages)
    ensures FilePrefix(family, device, pages, 0) == Some([])
  {
  }

  /** One more block, or none at all from here on. */
  lemma {:induction false} FileNext(family: nat, device: nat, pages: seq<Page>, k: nat, b: seq<Byte>)
    requires WholePages(pages) && k < |pages| && FilePrefix(family, device, pages, k) == Some(b)
    ensures if Fits(family, pages[k].addr, k, |pages|) && device < WORD_LIMIT
            then FilePrefix(family, device, pages, k + 1)
              == Some(b + EncodedBlock(family, device, pages[k].addr, pages[k].data, k, |pages|))
            else File(family, device, pages) == None
  {
    hide EncodedBlock, EncodedPrefix;
    FileIsEncoded(family, device, pages, |pages|);
  }

  lemma {:induction false} ReadStarts(wanted: nat, base: Option<nat>, buf: seq<Byte>)
    ensures ReadPrefix(wanted, base, buf, 0) == Running(Reader(None, None, map[], [], base))
  {
  }

  lemma {:induction false} ReadNext(wanted: nat, base: Option<nat>, buf: seq<Byte>, n: nat, r: Reader)
    requires 512 * n + 512 <= |buf| && ReadPrefix(wanted, base, buf, n) == Running(r)
    ensures ReadPrefix(wanted, base, buf, n + 1)
      == ReadBlock(wanted, r, buf[512 * n..512 * n + 512], n + 1 == |buf| / 512)
  {
    hide ReadBlock;
  }

  lemma {:induction false} FailureLasts(wanted: nat, base: Option<nat>, buf: seq<Byte>, k: nat, n: nat)
    requires k <= n && 512 * n <= |buf|
    ensures var o := ReadPrefix(wanted, base, buf, k); o.Failed? ==> ReadPrefix(wanted, base, buf, n) == o
    decreases n
  {
    hide ReadBlock;
    if k < n {
      FailureLasts(wanted, base, buf, k, n - 1);
    }
  }
}
