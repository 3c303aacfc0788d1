/** The UF2 container: 512-byte blocks with eight little-endian header words, as util/uf2conv.py writes and reads it. */
module Uf2 {

  import opened Widths
  import opened Options

  const UF2_MAGIC_START0 := 0x0A324655
  const UF2_MAGIC_START1 := 0x9E5D5157
  const UF2_MAGIC_END := 0x0AB16F30
  const MAX_PADDING := 10 * 1024 * 1024
  const WORD_LIMIT := 0x1_0000_0000

  function Word(n: nat): (w: seq<Byte>)
    ensures |w| == 4
  {
    [Low(n), Low(n / 0x100), Low(n / 0x1_0000), Low(n / 0x100_0000)]
  }

  function Low(n: nat): Byte {
    n % 256
  }

  function Unword(w: seq<Byte>): nat
    requires |w| == 4
  {
    w[0] as nat + 0x100 * (w[1] as nat) + 0x1_0000 * (w[2] as nat) + 0x100_0000 * (w[3] as nat)
  }

  lemma {:induction false} WordUnword(n: nat)
    requires n < WORD_LIMIT
    ensures Unword(Word(n)) == n
  {
    assert n / 0x1_0000 == n / 0x100 / 256;
    assert n / 0x100_0000 == n / 0x1_0000 / 256;
  }

  function Words(ws: seq<nat>): (b: seq<Byte>)
    ensures |b| == 4 * |ws|
  {
    if ws == [] then [] else Words(ws[..|ws| - 1]) + Word(ws[|ws| - 1])
  }

  function Field(block: seq<Byte>, k: nat): nat
    requires 4 * k + 4 <= |block|
  {
    Unword(block[4 * k..4 * k + 4])
  }

  lemma {:induction false} WordsField(ws: seq<nat>, rest: seq<Byte>, k: nat)
    requires k < |ws| && ws[k] < WORD_LIMIT
    ensures Field(Words(ws) + rest, k) == ws[k]
    decreases |ws|
  {
    hide Word, Unword;
    var init, w := ws[..|ws| - 1], Word(ws[|ws| - 1]);
    assert Words(ws) + rest == Words(init) + (w + rest);
    if k < |init| {
      WordsField(init, w + rest, k);
    } else {
      WordUnword(ws[k]);
      assert (Words(init) + (w + rest))[4 * k..4 * k + 4] == w;
    }
  }

  predicate Flag(flags: nat, mask: nat)
    requires mask > 0
  {
    flags / mask % 2 == 1
  }

  const NOT_MAIN_FLASH := 0x1
  const HAS_FAMILY := 0x2000
  const HAS_DEVICE := 0x8000

  function FlagsOf(family: nat, device: nat): nat {
    (if family != 0 then HAS_FAMILY else 0) + (if device != 0 then HAS_DEVICE else 0)
  }

  function HeaderWords(family: nat, device: nat, addr: nat, number: nat, count: nat): seq<nat> {
    [UF2_MAGIC_START0, UF2_MAGIC_START1, FlagsOf(family, device), addr, 256, number, count, family]
  }

  /** What follows the 256 data bytes of a block. */
  function Tail(device: nat): (t: seq<Byte>)
    ensures |t| == 224
  {
    (if device != 0 then [0x08, 0x29, 0xA7, 0xC8] + Word(device) + Zeros(212) else Zeros(220)) + Word(UF2_MAGIC_END)
  }

  function EncodedBlock(family: nat, device: nat, addr: nat, data: seq<Byte>, number: nat, count: nat): (b: seq<Byte>)
    requires |data| == 256
    ensures |b| == 512
  {
    Words(HeaderWords(family, device, addr, number, count)) + data + Tail(device)
  }

  // ---------- a list of pages as a UF2 file ----------

  datatype Page = Page(addr: nat, data: seq<Byte>)

  ghost predicate WholePages(pages: seq<Page>) {
    forall i :: 0 <= i < |pages| ==> |pages[i].data| == 256
  }

  /** The first `n` blocks of the file. */
  ghost function EncodedPrefix(family: nat, device: nat, pages: seq<Page>, n: nat): (b: seq<Byte>)
    requires WholePages(pages) && n <= |pages|
    ensures |b| == 512 * n
  {
    if n == 0 then []
    else
      var p := pages[n - 1];
      EncodedPrefix(family, device, pages, n - 1) + EncodedBlock(family, device, p.addr, p.data, n - 1, |pages|)
  }

  // ---------- reading ----------

  /** `curr` is where the next byte goes, `base` the address the caller will learn. */
  datatype Reader = Reader(curr: Option<nat>, family: Option<nat>, found: map<nat, nat>, out: seq<Byte>,
                           base: Option<nat>)

  datatype Outcome = Running(reader: Reader) | Failed(base: Option<nat>)

  function Found(found: map<nat, nat>, family: nat, addr: nat): map<nat, nat> {
    if family in found && found[family] <= addr then found else found[family := addr]
  }

  /** One block, read with `wanted` as the family asked for (0 for any). A bad magic ends the conversion: the
      message that would report it cannot be built. */
  function ReadBlock(wanted: nat, r: Reader, block: seq<Byte>, last: bool): Outcome
    requires |block| == 512
  {
    var flags, addr, size, family := Field(block, 2), Field(block, 3), Field(block, 4), Field(block, 7);
    if Field(block, 0) != UF2_MAGIC_START0 || Field(block, 1) != UF2_MAGIC_START1 then Failed(r.base)
    else if Flag(flags, NOT_MAIN_FLASH) then Running(r)
    else if size > 476 then Failed(r.base)
    else
      var tagged := Flag(flags, HAS_FAMILY);
      var known := if tagged && r.family == None then Some(family) else r.family;
      var restart := r.curr == None || (tagged && Some(family) != known);
      var base := if restart && (wanted == 0 || wanted == family) then Some(addr) else r.base;
      var curr := if restart then addr else r.curr.value;
      if addr < curr || addr - curr > MAX_PADDING || (addr - curr) % 4 != 0 then Failed(base)
      else
        var kept := if wanted == 0 || (tagged && wanted == family) then block[32..32 + size] else [];
        var found := if tagged then Found(r.found, family, addr) else r.found;
        var mixed := last && |found| > 1 && wanted == 0;
        Running(Reader(Some(addr + size), if restart then Some(family) else known, found,
                       if mixed then [] else r.out + Zeros(addr - curr) + kept,
                       if mixed then Some(0) else base))
  }

  /** The reader after the first `n` blocks. */
  function ReadPrefix(wanted: nat, base: Option<nat>, buf: seq<Byte>, n: nat): Outcome
    requires 512 * n <= |buf|
  {
    if n == 0 then Running(Reader(None, None, map[], [], base))
    else
      match ReadPrefix(wanted, base, buf, n - 1)
      case Failed(b) => Failed(b)
      case Running(r) => ReadBlock(wanted, r, buf[512 * (n - 1)..512 * n], n == |buf| / 512)
  }

  function ReadAll(wanted: nat, base: Option<nat>, buf: seq<Byte>): Outcome {
    ReadPrefix(wanted, base, buf, |buf| / 512)
  }

  // ---------- pages laid out in memory ----------

  /** The pages one after the other with zeros in the gaps, when no page goes back or leaves too wide a gap. */
  function Assembled(pages: seq<Page>, keep: bool): Option<seq<Byte>>
    decreases |pages|
  {
    if pages == [] then Some([])
    else
      var n := |pages| - 1;
      match Assembled(pages[..n], keep)
      case None => None
      case Some(out) =>
        var curr := if n == 0 then pages[0].addr else pages[n - 1].addr + 256;
        var gap := pages[n].addr - curr;
        if 0 <= gap <= MAX_PADDING && gap % 4 == 0 then Some(out + Zeros(gap)
          + if keep then pages[n].data else []) else None
  }

  // ---------- a plain image ----------

  function NumBlocks(content: seq<Byte>): nat {
    (|content| + 255) / 256
  }

  /** Chunk `i`, zero-filled to 256 bytes. */
  function Chunk(content: seq<Byte>, i: nat): (c: seq<Byte>)
    requires i < NumBlocks(content)
    ensures |c| == 256
  {
    var end := if 256 * i + 256 <= |content| then 256 * i + 256 else |content|;
    content[256 * i..end] + Zeros(256 * i + 256 - end)
  }

  function ContentPages(content: seq<Byte>, base: nat): (pages: seq<Page>)
    ensures |pages| == NumBlocks(content) && WholePages(pages)
  {
    seq(NumBlocks(content), i requires 0 <= i < NumBlocks(content) => Page(256 * i + base, Chunk(content, i)))
  }

  function Padded(content: seq<Byte>): seq<Byte> {
    content + Zeros(256 * NumBlocks(content) - |content|)
  }

  // ---------- Intel HEX ----------

  /** Records by type: 0, 4, 2, 1 and the rest. */
  datatype Record =
    | Data(offset: U16, bytes: seq<Byte>)
    | LinearBase(high: U16)
    | SegmentBase(segment: U16)
    | EndOfFile
    | Other

  datatype Written = Written(addr: nat, value: Byte)

  function BaseAfter(upper: nat, r: Record): nat {
    match r
    case LinearBase(high) => high * 0x1_0000
    case SegmentBase(segment) => segment * 0x10
    case _ => upper
  }

  /** Every data byte with its address, in file order, up to the end record. */
  function Cells(records: seq<Record>, upper: nat): seq<Written>
    decreases |records|
  {
    if records == [] || records[0] == EndOfFile then []
    else
      (if records[0].Data? then CellsOf(upper + records[0].offset, records[0].bytes) else [])
      + Cells(records[1..], BaseAfter(upper, records[0]))
  }

  function CellsOf(addr: nat, bytes: seq<Byte>): (cells: seq<Written>)
    ensures |cells| == |bytes|
  {
    seq(|bytes|, i requires 0 <= i < |bytes| => Written(addr + i, bytes[i]))
  }

  function PageOf(addr: nat): nat {
    addr / 256 * 256
  }

  /** A byte goes into the current block, or into a new one when its address is elsewhere. */
  function Placed(pages: seq<Page>, w: Written): (pages': seq<Page>)
    requires WholePages(pages)
    ensures WholePages(pages')
  {
    if pages != [] && pages[|pages| - 1].addr == PageOf(w.addr) then
      pages[|pages| - 1 := Page(PageOf(w.addr), pages[|pages| - 1].data[w.addr % 256 := w.value])]
    else
      pages + [Page(PageOf(w.addr), Zeros(256)[w.addr % 256 := w.value])]
  }

  function PagesOf(cells: seq<Written>): (pages: seq<Page>)
    ensures WholePages(pages)
  {
    if cells == [] then [] else Placed(PagesOf(cells[..|cells| - 1]), cells[|cells| - 1])
  }

  /** The byte at `a` in the memory image: the last one written, else zero. */
  function ImageAt(cells: seq<Written>, a: nat): Byte {
    if cells == [] then 0
    else if cells[|cells| - 1].addr == a then cells[|cells| - 1].value
    else ImageAt(cells[..|cells| - 1], a)
  }

  /** No byte's page lies before the previous byte's, or more than the allowed gap after it. */
  ghost predicate Ascending(cells: seq<Written>) {
    forall i :: 0 < i < |cells| ==>
      var p, q := PageOf(cells[i - 1].addr), PageOf(cells[i].addr);
      p <= q <= p + 256 + MAX_PADDING
  }
}
