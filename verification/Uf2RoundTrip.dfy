/** Reading a UF2 file back. */
module Uf2RoundTrip {

  import opened Widths
  import opened Options
  import opened Uf2

  // ---------- one block ----------

  lemma {:induction false} BlockFields(family: nat, device: nat, addr: nat, data: seq<Byte>, number: nat, count: nat)
    requires |data| == 256 && family < WORD_LIMIT && addr < WORD_LIMIT && number < WORD_LIMIT && count < WORD_LIMIT
    ensures var b := EncodedBlock(family, device, addr, data, number, count);
            && Field(b, 0) == 0x0A324655 && Field(b, 1) == 0x9E5D5157
            && Field(b, 2) == (if family != 0 then 0x2000 else 0) + (if device != 0 then 0x8000 else 0)
            && Field(b, 3) == addr && Field(b, 4) == 256 && Field(b, 5) == number && Field(b, 6) == count
            && Field(b, 7) == family && b[32..288] == data && Field(b, 127) == 0x0AB16F30
  {
    hide Words, Field, Tail;
    var ws, rest := HeaderWords(family, device, addr, number, count), data + Tail(device);
    assert EncodedBlock(family, device, addr, data, number, count) == Words(ws) + rest;
    WordsField(ws, rest, 0);
    WordsField(ws, rest, 1);
    WordsField(ws, rest, 2);
    WordsField(ws, rest, 3);
    WordsField(ws, rest, 4);
    WordsField(ws, rest, 5);
    WordsField(ws, rest, 6);
    WordsField(ws, rest, 7);
    TailEnds(device);
    var b := Words(ws) + rest;
    assert b[508..512] == Tail(device)[220..];
    FieldIs(b, 127, UF2_MAGIC_END);
  }

  lemma {:induction false} FieldIs(b: seq<Byte>, k: nat, n: nat)
    requires 4 * k + 4 <= |b| && n < WORD_LIMIT && b[4 * k..4 * k + 4] == Word(n)
    ensures Field(b, k) == n
  {
    hide Word, Unword;
    WordUnword(n);
  }

  lemma {:induction false} TailEnds(device: nat)
    ensures Tail(device)[220..] == Word(UF2_MAGIC_END)
    ensures device != 0 ==>
      Tail(device)[..4] == [0x08, 0x29, 0xA7, 0xC8] && Tail(device)[4..8] == Word(device)
      && Tail(device)[8..220] == Zeros(212)
    ensures device == 0 ==> Tail(device)[..220] == Zeros(220)
  {
    hide Word;
  }

  /** After the data stands the tag of the device with its number, which the flag announces, or nothing but zeros. */
  lemma {:induction false} DeviceFollows(family: nat, device: nat, addr: nat, data: seq<Byte>, number: nat, count: nat)
    requires |data| == 256 && device < WORD_LIMIT
    ensures var b := EncodedBlock(family, device, addr, data, number, count);
            if device != 0 then
              b[288..292] == [0x08, 0x29, 0xA7, 0xC8] && Field(b, 73) == device && b[296..508] == Zeros(212)
            else b[288..508] == Zeros(220)
    ensures Flag(FlagsOf(family, device), HAS_DEVICE) <==> device != 0
  {
    hide Words, Word, Field, Tail;
    var ws := HeaderWords(family, device, addr, number, count);
    var b, t := EncodedBlock(family, device, addr, data, number, count), Tail(device);
    assert b == Words(ws) + data + t && |Words(ws) + data| == 288;
    assert b[288..292] == t[..4] && b[292..296] == t[4..8] && b[296..508] == t[8..220] && b[288..508] == t[..220];
    TailEnds(device);
    if device != 0 {
      FieldIs(b, 73, device);
    }
  }

  lemma {:induction false} FlagsMeanFamily(family: nat, device: nat)
    ensures !Flag(FlagsOf(family, device), NOT_MAIN_FLASH)
    ensures Flag(FlagsOf(family, device), HAS_FAMILY) <==> family != 0
    ensures FlagsOf(family, device) == (if family != 0 then 0x2000 else 0) + (if device != 0 then 0x8000 else 0)
  {
  }

  // ---------- addresses ----------

  /** Neither a base record nor the end. */
  predicate IsPlain(r: Record) {
    r.Data? || r.Other?
  }

  /** A data record goes to its offset from the last base record, which counts 64 KiB or 16 bytes. */
  lemma {:induction false} DataGoesTo(base: Record, plain: seq<Record>, offset: U16, bytes: seq<Byte>,
                                      rest: seq<Record>, upper: nat)
    requires base.LinearBase? || base.SegmentBase?
    requires forall i :: 0 <= i < |plain| ==> IsPlain(plain[i])
    ensures var start := if base.LinearBase? then base.high * 65536 else base.segment * 16;
            Cells([base] + (plain + ([Data(offset, bytes)] + rest)), upper)
              == Cells(plain, start) + (CellsOf(start + offset, bytes) + Cells(rest, start))
  {
    hide Cells, CellsOf;
    var start := if base.LinearBase? then base.high * 65536 else base.segment * 16;
    var data := [Data(offset, bytes)] + rest;
    assert data[1..] == rest;
    PlainFirst(data, start);
    BaseFirst(base, plain + data, upper);
    PlainKeepsBase(plain, data, start);
  }

  lemma {:induction false} BaseFirst(base: Record, more: seq<Record>, upper: nat)
    requires base.LinearBase? || base.SegmentBase?
    ensures Cells([base] + more, upper)
      == Cells(more, if base.LinearBase? then base.high * 65536 else base.segment * 16)
  {
    assert ([base] + more)[1..] == more;
  }

  lemma {:induction false} CellsAre(addr: nat, bytes: seq<Byte>, i: nat)
    requires i < |bytes|
    ensures CellsOf(addr, bytes)[i] == Written(addr + i, bytes[i])
  {
  }

  lemma {:induction false} PlainFirst(records: seq<Record>, upper: nat)
    requires records != [] && IsPlain(records[0])
    ensures Cells(records, upper)
      == (if records[0].Data? then CellsOf(upper + records[0].offset, records[0].bytes) else [])
         + Cells(records[1..], upper)
  {
  }

  lemma {:induction false} PlainKeepsBase(plain: seq<Record>, more: seq<Record>, upper: nat)
    requires forall i :: 0 <= i < |plain| ==> IsPlain(plain[i])
    ensures Cells(plain + more, upper) == Cells(plain, upper) + Cells(more, upper)
    decreases |plain|
  {
    hide Cells, CellsOf;
    if plain == [] {
      assert plain + more == more;
      NothingWritten(upper);
    } else {
      assert (plain + more)[1..] == plain[1..] + more;
      PlainKeepsBase(plain[1..], more, upper);
      PlainFirst(plain, upper);
      PlainFirst(plain + more, upper);
    }
  }

  lemma {:induction false} NothingWritten(upper: nat)
    ensures Cells([], upper) == []
  {
  }

  /** Nothing after the end record counts. */
  lemma {:induction false} EndEnds(plain: seq<Record>, rest: seq<Record>, upper: nat)
    requires forall i :: 0 <= i < |plain| ==> IsPlain(plain[i])
    ensures Cells(plain + ([EndOfFile] + rest), upper) == Cells(plain, upper)
  {
    PlainKeepsBase(plain, [EndOfFile] + rest, upper);
    assert Cells(plain, upper) + [] == Cells(plain, upper);
  }

  // ---------- a file of pages ----------

  predicate Wanted(wanted: nat, family: nat) {
    wanted == 0 || wanted == family
  }

  /** Every word the file needs fits in 32 bits. */
  ghost predicate Encodable(family: nat, pages: seq<Page>) {
    && WholePages(pages) && family < WORD_LIMIT && |pages| < WORD_LIMIT
    && forall i :: 0 <= i < |pages| ==> pages[i].addr < WORD_LIMIT
  }

  /** What the reader knows after `n` pages of a file of one family. */
  ghost predicate Follows(wanted: nat, family: nat, base: Option<nat>, pages: seq<Page>, n: nat, o: Outcome)
    requires n <= |pages|
  {
    var learned := if n > 0 && Wanted(wanted, family) then Some(pages[0].addr) else base;
    match Assembled(pages[..n], Wanted(wanted, family))
    case None => o == Failed(learned)
    case Some(out) =>
      && o.Running? && o.reader.out == out && o.reader.base == learned
      && o.reader.found.Keys <= {family}
      && o.reader.curr == (if n == 0 then None else Some(pages[n - 1].addr + 256))
      && o.reader.family == (if n == 0 then None else Some(family))
  }

  lemma {:induction false} FoundKeys(found: map<nat, nat>, family: nat, addr: nat)
    requires found.Keys <= {family}
    ensures Found(found, family, addr).Keys <= {family}
    ensures |found| <= 1
    ensures |Found(found, family, addr)| <= 1
  {
    AtMostOne(found, family);
    AtMostOne(Found(found, family, addr), family);
  }

  lemma {:induction false} AtMostOne(found: map<nat, nat>, family: nat)
    requires found.Keys <= {family}
    ensures |found| <= 1
  {
    if found.Keys == {} {
      assert |found.Keys| == 0;
    } else {
      assert found.Keys == {family};
    }
    assert |found| == |found.Keys|;
  }

  /** A block's effect in terms of its page. */
  lemma {:induction false} ReadEncoded(wanted: nat, r: Reader, family: nat, device: nat, page: Page, number: nat,
                                       count: nat, last: bool)
    requires |page.data| == 256 && family < WORD_LIMIT && page.addr < WORD_LIMIT && number < WORD_LIMIT
    requires count < WORD_LIMIT
    requires r.found.Keys <= {family} && (r.curr == None <==> r.family == None)
      && (r.family.Some? ==> r.family.value == family)
    ensures var o := ReadBlock(wanted, r, EncodedBlock(family, device, page.addr, page.data, number, count), last);
            var base := if r.curr == None && Wanted(wanted, family) then Some(page.addr) else r.base;
            var curr := if r.curr == None then page.addr else r.curr.value;
            if 0 <= page.addr - curr <= MAX_PADDING && (page.addr - curr) % 4 == 0 then
              && o.Running? && o.reader.curr == Some(page.addr + 256) && o.reader.family == Some(family)
              && o.reader.found.Keys <= {family} && o.reader.base == base
              && o.reader.out == r.out + Zeros(page.addr - curr)
                   + if Wanted(wanted, family) then page.data else [] else o == Failed(base)
  {
    hide EncodedBlock, Field, Flag, FlagsOf, Found;
    BlockFields(family, device, page.addr, page.data, number, count);
    FlagsMeanFamily(family, device);
    FoundKeys(r.found, family, page.addr);
  }

  lemma {:induction false} PrefixBlock(family: nat, device: nat, pages: seq<Page>, n: nat, m: nat)
    requires WholePages(pages) && n < m <= |pages|
    ensures EncodedPrefix(family, device, pages, m)[512 * n..512 * (n + 1)]
              == EncodedBlock(family, device, pages[n].addr, pages[n].data, n, |pages|)
    decreases m
  {
    hide EncodedBlock;
    if n < m - 1 {
      PrefixBlock(family, device, pages, n, m - 1);
    }
  }

  /** Every block of a file says its own number, the number of blocks and where its page goes. */
  lemma {:induction false} FileBlocks(family: nat, device: nat, pages: seq<Page>, i: nat)
    requires Encodable(family, pages) && i < |pages|
    ensures var b := EncodedPrefix(family, device, pages, |pages|)[512 * i..512 * (i + 1)];
            && Field(b, 5) == i && Field(b, 6) == |pages| && Field(b, 3) == pages[i].addr && Field(b, 7) == family
            && b[32..288] == pages[i].data
  {
    PrefixBlock(family, device, pages, i, |pages|);
    hide EncodedBlock, EncodedPrefix, Field;
    BlockFields(family, device, pages[i].addr, pages[i].data, i, |pages|);
  }

  lemma {:induction false} AssembledNext(pages: seq<Page>, n: nat, keep: bool)
    requires 0 < n <= |pages|
    ensures Assembled(pages[..n], keep) ==
      match Assembled(pages[..n - 1], keep)
      case None => None
      case Some(out) =>
        var gap := if n == 1 then 0 else pages[n - 1].addr - pages[n - 2].addr - 256;
        if 0 <= gap <= MAX_PADDING && gap % 4 == 0
          then Some(out + Zeros(gap) + if keep then pages[n - 1].data else []) else None
  {
    hide Zeros;
    assert pages[..n][..n - 1] == pages[..n - 1];
  }

  /** One more block. */
  lemma {:induction false} FollowsNext(wanted: nat, family: nat, device: nat, base: Option<nat>, pages: seq<Page>,
                                       n: nat, o: Outcome)
    requires Encodable(family, pages) && 0 < n <= |pages| && Follows(wanted, family, base, pages, n - 1, o)
    requires o.Running?
    ensures var block := EncodedBlock(family, device, pages[n - 1].addr, pages[n - 1].data, n - 1, |pages|);
            Follows(wanted, family, base, pages, n, ReadBlock(wanted, o.reader, block, n == |pages|))
  {
    hide EncodedBlock, ReadBlock, Zeros, Assembled;
    ReadEncoded(wanted, o.reader, family, device, pages[n - 1], n - 1, |pages|, n == |pages|);
    AssembledNext(pages, n, Wanted(wanted, family));
  }

  lemma {:induction false} FailedStays(wanted: nat, family: nat, base: Option<nat>, pages: seq<Page>, n: nat,
                                       o: Outcome)
    requires WholePages(pages) && 0 < n <= |pages| && Follows(wanted, family, base, pages, n - 1, o) && o.Failed?
    ensures Follows(wanted, family, base, pages, n, o)
  {
    hide Zeros, Assembled;
    AssembledNext(pages, n, Wanted(wanted, family));
    if n == 1 {
      assert Assembled([], Wanted(wanted, family)) == Some([]) by {
        NothingAssembled(Wanted(wanted, family));
      }
    }
  }

  /** A gap may be 10 MiB wide. */
  lemma {:induction false} GapExactly(p: Page, q: Page, keep: bool)
    ensures Assembled([p, q], keep).Some?
      <==> 0 <= q.addr - p.addr - 256 <= 10485760 && (q.addr - p.addr - 256) % 4 == 0
  {
    hide Zeros;
    assert [p, q][..1] == [p] && [p][..0] == [];
    assert Assembled([p], keep).Some?;
  }

  lemma {:induction false} NothingAssembled(keep: bool)
    ensures Assembled([], keep) == Some([])
  {
  }

  /** The reader follows the layout of the pages, block by block. */
  lemma {:induction false} ReadFollows(wanted: nat, family: nat, device: nat, base: Option<nat>, pages: seq<Page>,
                                       n: nat)
    requires Encodable(family, pages) && n <= |pages|
    ensures var buf := EncodedPrefix(family, device, pages, |pages|);
            Follows(wanted, family, base, pages, n, ReadPrefix(wanted, base, buf, n))
  {
    hide EncodedPrefix, EncodedBlock, ReadBlock, Follows;
    var buf := EncodedPrefix(family, device, pages, |pages|);
    if n == 0 {
      FollowsStart(wanted, family, base, pages);
    } else {
      ReadFollows(wanted, family, device, base, pages, n - 1);
      var o := ReadPrefix(wanted, base, buf, n - 1);
      if o.Running? {
        PrefixBlock(family, device, pages, n - 1, |pages|);
        FollowsNext(wanted, family, device, base, pages, n, o);
      } else {
        FailedStays(wanted, family, base, pages, n, o);
      }
    }
  }

  lemma {:induction false} FollowsStart(wanted: nat, family: nat, base: Option<nat>, pages: seq<Page>)
    ensures Follows(wanted, family, base, pages, 0, Running(Reader(None, None, map[], [], base)))
  {
    assert pages[..0] == [];
  }

  /** Reading a file of pages lays them out in memory. It fails exactly when the layout does. */
  lemma {:induction false} ReadIsAssembled(wanted: nat, family: nat, device: nat, base: Option<nat>, pages: seq<Page>)
    requires Encodable(family, pages)
    ensures var o := ReadAll(wanted, base, EncodedPrefix(family, device, pages, |pages|));
            var learned := if pages != [] && Wanted(wanted, family) then Some(pages[0].addr) else base;
            match Assembled(pages, Wanted(wanted, family))
            case None => o == Failed(learned)
            case Some(out) => o.Running? && o.reader.out == out && o.reader.base == learned
  {
    hide EncodedPrefix, ReadPrefix, Assembled;
    ReadFollows(wanted, family, device, base, pages, |pages|);
    assert pages[..|pages|] == pages;
  }

  // ---------- bad magic ----------

  ghost predicate GoodMagic(block: seq<Byte>)
    requires |block| == 512
  {
    Field(block, 0) == UF2_MAGIC_START0 && Field(block, 1) == UF2_MAGIC_START1
  }

  function BlockOf(buf: seq<Byte>, n: nat): (b: seq<Byte>)
    requires 512 * n + 512 <= |buf|
    ensures |b| == 512
  {
    buf[512 * n..512 * n + 512]
  }

  /** A conversion that comes to its end has met good magics only: no block is skipped for its magic. */
  lemma {:induction false} ReadNeedsMagic(wanted: nat, base: Option<nat>, buf: seq<Byte>, n: nat, k: nat)
    requires k < n && 512 * n <= |buf| && ReadPrefix(wanted, base, buf, n).Running?
    ensures GoodMagic(BlockOf(buf, k))
    decreases n
  {
    hide Field;
    if k < n - 1 {
      hide ReadBlock;
      ReadNeedsMagic(wanted, base, buf, n - 1, k);
    }
  }

  /** One block with a bad magic anywhere in a file of blocks makes the conversion fail, whatever the file. */
  lemma {:induction false} BadMagicFails(wanted: nat, base: Option<nat>, before: seq<Byte>, bad: seq<Byte>,
                                         after: seq<Byte>)
    requires |before| % 512 == 0 && |bad| == 512 && !GoodMagic(bad)
    ensures ReadAll(wanted, base, before + bad + after).Failed?
  {
    hide GoodMagic, ReadPrefix;
    var buf, k := before + bad + after, |before| / 512;
    assert BlockOf(buf, k) == bad;
    if ReadAll(wanted, base, buf).Running? {
      ReadNeedsMagic(wanted, base, buf, |buf| / 512, k);
    }
  }

  /** A file that fails for this alone: an image's own file, which converts, with a block of zeros put into it. */
  lemma {:induction false} ZeroBlockFails(content: seq<Byte>, base: nat, family: nat, wanted: nat, k: nat)
    requires Encodable(family, ContentPages(content, base)) && k <= NumBlocks(content)
    ensures var pages := ContentPages(content, base);
            var file := EncodedPrefix(family, 0, pages, |pages|);
            && ReadAll(wanted, None, file).Running?
            && ReadAll(wanted, None, file[..512 * k] + Zeros(512) + file[512 * k..]).Failed?
  {
    hide EncodedPrefix, ReadAll, GoodMagic, Zeros, ContentPages, Padded, NumBlocks, Encodable, WholePages;
    var pages := ContentPages(content, base);
    ImageRoundTrip(content, base, family, wanted, None);
    var file := EncodedPrefix(family, 0, pages, |pages|);
    InsertedFails(wanted, file, k);
  }

  lemma {:induction false} InsertedFails(wanted: nat, file: seq<Byte>, k: nat)
    requires 512 * k <= |file|
    ensures ReadAll(wanted, None, file[..512 * k] + Zeros(512) + file[512 * k..]).Failed?
  {
    hide ReadAll, GoodMagic, Zeros;
    ZerosHaveNoMagic();
    BadMagicFails(wanted, None, file[..512 * k], Zeros(512), file[512 * k..]);
  }

  lemma {:induction false} ZerosHaveNoMagic()
    ensures !GoodMagic(Zeros(512))
  {
    assert Zeros(512)[0..4] == [0, 0, 0, 0];
  }

  // ---------- a plain image ----------

  /** The chunks of a content follow each other without gaps and make up the zero-padded content. */
  lemma {:induction false} ContentAssembled(content: seq<Byte>, base: nat, keep: bool, n: nat)
    requires n <= NumBlocks(content)
    ensures 256 * n <= |Padded(content)|
    ensures Assembled(ContentPages(content, base)[..n], keep) == Some(if keep then Padded(content)[..256 * n] else [])
  {
    hide Padded, Chunk, NumBlocks, Assembled;
    var pages := ContentPages(content, base);
    if n == 0 {
      NothingAssembled(keep);
      assert pages[..0] == [];
      assert Padded(content)[..0] == [];
    } else {
      ContentAssembled(content, base, keep, n - 1);
      AssembledNext(pages, n, keep);
      ChunkOfPadded(content, n - 1);
      var out := if keep then Padded(content)[..256 * (n - 1)] else [];
      assert n > 1 ==> pages[n - 1].addr - pages[n - 2].addr - 256 == 0;
      assert out + Zeros(0) == out;
    }
  }

  lemma {:induction false} ChunkOfPadded(content: seq<Byte>, i: nat)
    requires i < NumBlocks(content)
    ensures 256 * i + 256 <= |Padded(content)|
    ensures Padded(content)[..256 * (i + 1)] == Padded(content)[..256 * i] + Chunk(content, i)
  {
    var p, c := Padded(content), Chunk(content, i);
    forall k | 0 <= k < 256 ensures p[256 * i + k] == c[k] {
    }
    assert p[256 * i..256 * (i + 1)] == c;
  }

  /** Image to UF2 and back: the image zero-padded to whole blocks, and its base address. Asked for another family
      than it was written for, the reader returns nothing. */
  lemma {:induction false} ImageRoundTrip(content: seq<Byte>, base: nat, family: nat, wanted: nat, before: Option<nat>)
    requires Encodable(family, ContentPages(content, base))
    ensures var pages := ContentPages(content, base);
            var o := ReadAll(wanted, before, EncodedPrefix(family, 0, pages, |pages|));
            && o.Running?
            && o.reader.out == (if Wanted(wanted, family) then Padded(content) else [])
            && (content != [] && Wanted(wanted, family) ==> o.reader.base == Some(base))
            && (!Wanted(wanted, family) ==> o.reader.base == before)
  {
    hide EncodedPrefix, ReadAll, Assembled;
    var pages := ContentPages(content, base);
    ReadIsAssembled(wanted, family, 0, before, pages);
    ContentAssembled(content, base, Wanted(wanted, family), |pages|);
    assert pages[..|pages|] == pages;
    assert Padded(content)[..256 * |pages|] == Padded(content);
  }

  /** The zeros behind the content fill its last page, no more. */
  lemma {:induction false} PaddedFills(content: seq<Byte>)
    ensures |content| <= |Padded(content)| < |content| + 256 && |Padded(content)| % 256 == 0
    ensures forall i :: 0 <= i < |Padded(content)| ==> Padded(content)[i] == if i < |content| then content[i] else 0
  {
  }

  // ---------- Intel HEX ----------

  lemma {:induction false} PagesEnds(cells: seq<Written>)
    requires cells != []
    ensures var pages := PagesOf(cells);
            && pages != [] && pages[0].addr == PageOf(cells[0].addr)
            && pages[|pages| - 1].addr == PageOf(cells[|cells| - 1].addr)
    decreases |cells|
  {
    hide PageOf;
    if |cells| > 1 {
      PagesEnds(cells[..|cells| - 1]);
    } else {
      assert PagesOf(cells[..0]) == [];
    }
  }

  lemma {:induction false} AscendingNext(cells: seq<Written>)
    requires |cells| > 1
    ensures var n := |cells| - 1;
            var p, q := PageOf(cells[n - 1].addr), PageOf(cells[n].addr);
            Ascending(cells) <==> Ascending(cells[..n]) && p <= q <= p + 256 + MAX_PADDING
  {
    hide PageOf;
    var n := |cells| - 1;
    if Ascending(cells[..n]) {
      forall i | 0 < i < n
        ensures PageOf(cells[i - 1].addr) <= PageOf(cells[i].addr) <= PageOf(cells[i - 1].addr) + 256 + MAX_PADDING
      {
        assert cells[..n][i - 1] == cells[i - 1] && cells[..n][i] == cells[i];
      }
    }
  }

  /** Replacing the last page's data changes the last 256 bytes. */
  lemma {:induction false} AssembledUpdate(pages: seq<Page>, data: seq<Byte>)
    requires WholePages(pages) && pages != [] && |data| == 256
    ensures var after := Assembled(pages[|pages| - 1 := Page(pages[|pages| - 1].addr, data)], true);
            match Assembled(pages, true)
            case None => after == None
            case Some(out) => |out| >= 256 && after == Some(out[..|out| - 256] + data)
  {
    hide Zeros;
    var n := |pages| - 1;
    var pages' := pages[n := Page(pages[n].addr, data)];
    assert pages'[..n] == pages[..n];
    assert n > 0 ==> pages'[n - 1] == pages[n - 1];
    if Assembled(pages, true).Some? {
      var out := Assembled(pages, true).value;
      assert out[|out| - 256..] == pages[n].data;
    }
  }

  lemma {:induction false} AssembledAppend(pages: seq<Page>, p: Page)
    requires pages != []
    ensures var gap := p.addr - pages[|pages| - 1].addr - 256;
            Assembled(pages + [p], true) ==
              match Assembled(pages, true)
              case None => None
              case Some(out) =>
                if 0 <= gap <= MAX_PADDING && gap % 4 == 0 then Some(out + Zeros(gap) + p.data) else None
  {
    hide Zeros;
    assert (pages + [p])[..|pages|] == pages;
  }

  /** The output covers the pages from the first to the last byte's, and holds the memory image. */
  ghost predicate ShowsImage(cells: seq<Written>, out: seq<Byte>) {
    if cells == [] then out == []
    else
      var first := PageOf(cells[0].addr);
      && |out| == PageOf(cells[|cells| - 1].addr) + 256 - first
      && forall i: nat :: i < |out| ==> out[i] == ImageAt(cells, first + i)
  }

  /** No byte was written past the last page of ascending bytes. */
  lemma {:induction false} NothingBeyond(cells: seq<Written>, a: nat)
    requires cells != [] && Ascending(cells) && a >= PageOf(cells[|cells| - 1].addr) + 256
    ensures ImageAt(cells, a) == 0
    decreases |cells|
  {
    assert a != cells[|cells| - 1].addr;
    if |cells| > 1 {
      hide PageOf;
      AscendingNext(cells);
      NothingBeyond(cells[..|cells| - 1], a);
    }
  }

  lemma {:induction false} PageApart(a: nat, b: nat)
    requires PageOf(a) < PageOf(b)
    ensures PageOf(a) + 256 <= PageOf(b)
    ensures (PageOf(b) - PageOf(a) - 256) % 4 == 0
  {
    var between := b / 256 - a / 256 - 1;
    assert PageOf(b) - PageOf(a) - 256 == 4 * (64 * between);
  }

  lemma {:induction false} PageHolds(a: nat)
    ensures PageOf(a) <= a < PageOf(a) + 256 && a - PageOf(a) == a % 256
  {
  }

  lemma {:induction false} FirstAssembled(p: Page)
    ensures Assembled([p], true) == Some(p.data)
  {
    NothingAssembled(true);
    assert [p][..0] == [];
    assert [] + Zeros(0) + p.data == p.data;
  }

  /** The first byte. */
  lemma {:induction false} FirstCell(cells: seq<Written>)
    requires |cells| == 1
    ensures Assembled(PagesOf(cells), true).Some? && Ascending(cells)
    ensures ShowsImage(cells, Assembled(PagesOf(cells), true).value)
  {
    hide PageOf, Zeros;
    var w := cells[0];
    PageHolds(w.addr);
    assert PagesOf(cells[..0]) == [];
    var pages := PagesOf(cells);
    var data := Zeros(256)[w.addr % 256 := w.value];
    assert pages == [Page(PageOf(w.addr), data)];
    assert pages[..0] == [];
    FirstAssembled(pages[0]);
    forall i: nat | i < 256 ensures data[i] == ImageAt(cells, PageOf(w.addr) + i) {
      assert ImageAt(cells[..0], PageOf(w.addr) + i) == 0;
    }
  }

  /** A byte in the current page. */
  lemma {:induction false} SamePage(cells: seq<Written>, w: Written, out: seq<Byte>)
    requires cells != [] && PageOf(w.addr) == PageOf(cells[|cells| - 1].addr) >= PageOf(cells[0].addr)
    requires ShowsImage(cells, out)
    ensures |out| >= 256
    ensures ShowsImage(cells + [w], out[..|out| - 256] + out[|out| - 256..][w.addr % 256 := w.value])
  {
    PageHolds(w.addr);
    hide PageOf;
    var out' := out[..|out| - 256] + out[|out| - 256..][w.addr % 256 := w.value];
    var first := PageOf(cells[0].addr);
    forall i: nat | i < |out'| ensures out'[i] == ImageAt(cells + [w], first + i) {
      ImageNext(cells, w, first + i);
    }
  }

  lemma {:induction false} ImageNext(cells: seq<Written>, w: Written, a: nat)
    ensures ImageAt(cells + [w], a) == if w.addr == a then w.value else ImageAt(cells, a)
  {
    assert (cells + [w])[..|cells|] == cells;
  }

  /** A byte in a later page. */
  lemma {:induction false} LaterPage(cells: seq<Written>, w: Written, out: seq<Byte>)
    requires cells != [] && PageOf(w.addr) >= PageOf(cells[|cells| - 1].addr) + 256
    requires PageOf(cells[|cells| - 1].addr) >= PageOf(cells[0].addr)
    requires ShowsImage(cells, out) && Ascending(cells)
    ensures var gap := PageOf(w.addr) - PageOf(cells[|cells| - 1].addr) - 256;
            ShowsImage(cells + [w], out + Zeros(gap) + Zeros(256)[w.addr % 256 := w.value])
  {
    PageHolds(w.addr);
    hide PageOf, Ascending;
    var gap := PageOf(w.addr) - PageOf(cells[|cells| - 1].addr) - 256;
    var out' := out + Zeros(gap) + Zeros(256)[w.addr % 256 := w.value];
    var first := PageOf(cells[0].addr);
    forall i: nat | i < |out'| ensures out'[i] == ImageAt(cells + [w], first + i) {
      ImageNext(cells, w, first + i);
      if i >= |out| {
        NothingBeyond(cells, first + i);
      }
    }
  }

  lemma {:induction false} AscendingEnds(cells: seq<Written>)
    requires cells != [] && Ascending(cells)
    ensures PageOf(cells[0].addr) <= PageOf(cells[|cells| - 1].addr)
    decreases |cells|
  {
    hide PageOf;
    if |cells| > 1 {
      AscendingNext(cells);
      AscendingEnds(cells[..|cells| - 1]);
    }
  }

  /** The blocks made from a HEX file can be laid out exactly when its bytes ascend page by page without too wide a
      gap; the layout then is the memory image. */
  lemma {:induction false} HexAssembled(cells: seq<Written>)
    ensures Assembled(PagesOf(cells), true).Some? <==> Ascending(cells)
    ensures Ascending(cells) ==> ShowsImage(cells, Assembled(PagesOf(cells), true).value)
    decreases |cells|
  {
    hide PageOf, Ascending, ShowsImage, Assembled;
    if cells == [] {
      NoCells();
    } else if |cells| == 1 {
      FirstCell(cells);
    } else {
      var n := |cells| - 1;
      var init, w := cells[..n], cells[n];
      HexAssembled(init);
      assert cells == init + [w];
      PagesEnds(init);
      AscendingNext(cells);
      HexNext(init, w);
    }
  }

  lemma {:induction false} NoCells()
    ensures Assembled(PagesOf([]), true) == Some([]) && Ascending([]) && ShowsImage([], [])
  {
  }

  lemma {:induction false} HexNext(cells: seq<Written>, w: Written)
    requires cells != [] && (Assembled(PagesOf(cells), true).Some? <==> Ascending(cells))
    requires Ascending(cells) ==> ShowsImage(cells, Assembled(PagesOf(cells), true).value)
    ensures var p, q := PageOf(cells[|cells| - 1].addr), PageOf(w.addr);
            var after := Assembled(PagesOf(cells + [w]), true);
            && (after.Some? <==> Ascending(cells) && p <= q <= p + 256 + MAX_PADDING)
            && (after.Some? ==> ShowsImage(cells + [w], after.value))
  {
    hide PageOf, Ascending, ShowsImage, Assembled, PagesOf;
    var pages := PagesOf(cells);
    var p, q := PageOf(cells[|cells| - 1].addr), PageOf(w.addr);
    PagesEnds(cells);
    PagesNext(cells, w);
    if Ascending(cells) {
      AscendingEnds(cells);
    }
    if p == q {
      AssembledUpdate(pages, pages[|pages| - 1].data[w.addr % 256 := w.value]);
      if Ascending(cells) {
        LastPageData(pages);
        SamePage(cells, w, Assembled(pages, true).value);
      }
    } else {
      AssembledAppend(pages, Page(q, Zeros(256)[w.addr % 256 := w.value]));
      if p < q {
        PageApart(cells[|cells| - 1].addr, w.addr);
        if Ascending(cells) {
          LaterPage(cells, w, Assembled(pages, true).value);
        }
      }
    }
  }

  lemma {:induction false} PagesNext(cells: seq<Written>, w: Written)
    ensures PagesOf(cells + [w]) == Placed(PagesOf(cells), w)
  {
    assert (cells + [w])[..|cells|] == cells;
  }

  lemma {:induction false} LastPageData(pages: seq<Page>)
    requires WholePages(pages) && pages != [] && Assembled(pages, true).Some?
    ensures var out := Assembled(pages, true).value;
            |out| >= 256 && out[|out| - 256..] == pages[|pages| - 1].data
  {
    hide Zeros;
  }

  /** HEX to UF2 to binary: it succeeds exactly for ascending bytes, and yields the memory image from the first
      byte's 256-byte page on, whose address the reader learns. */
  lemma {:induction false} HexRoundTrip(records: seq<Record>, family: nat, device: nat, wanted: nat,
                                        before: Option<nat>)
    requires Encodable(family, PagesOf(Cells(records, 0))) && Wanted(wanted, family)
    ensures var cells := Cells(records, 0);
            var o := ReadAll(wanted, before, EncodedPrefix(family, device, PagesOf(cells), |PagesOf(cells)|));
            && (o.Running? <==> Ascending(cells))
            && (o.Running? ==> ShowsImage(cells, o.reader.out))
            && (cells != [] && o.Running? ==> o.reader.base == Some(PageOf(cells[0].addr)))
  {
    hide EncodedPrefix, ReadAll, Assembled, PagesOf, Cells, ShowsImage, Ascending, PageOf;
    var cells := Cells(records, 0);
    ReadIsAssembled(wanted, family, device, before, PagesOf(cells));
    HexAssembled(cells);
    if cells != [] {
      PagesEnds(cells);
    }
  }

  /** Every byte of the file is in the image. */
  lemma {:induction false} ImageCovers(cells: seq<Written>, k: nat)
    requires Ascending(cells) && k < |cells|
    ensures PageOf(cells[0].addr) <= cells[k].addr < PageOf(cells[|cells| - 1].addr) + 256
    decreases |cells|
  {
    PageHolds(cells[k].addr);
    hide PageOf;
    if k < |cells| - 1 {
      AscendingNext(cells);
      ImageCovers(cells[..|cells| - 1], k);
    } else {
      AscendingEnds(cells);
    }
  }
}
