/** Reading a UF2 file that holds several families, one after the other, as when files are joined. */
module Uf2Families {

  import opened Widths
  import opened Options
  import opened Uf2
  import opened Uf2RoundTrip

  /** Pages of one family. */
  datatype Segment = Segment(family: nat, pages: seq<Page>)

  /** Each block carries the family, so that 0 is none; neighbours differ. */
  ghost predicate AreSegments(segs: seq<Segment>) {
    && (forall i :: 0 <= i < |segs| ==>
          segs[i].family != 0 && segs[i].pages != [] && Encodable(segs[i].family, segs[i].pages))
    && forall i :: 0 < i < |segs| ==> segs[i].family != segs[i - 1].family
  }

  ghost function Joined(segs: seq<Segment>, device: nat): (b: seq<Byte>)
    requires forall i :: 0 <= i < |segs| ==> WholePages(segs[i].pages)
    ensures |b| == 512 * Blocks(segs)
  {
    if segs == [] then []
    else
      var last := segs[|segs| - 1];
      Joined(segs[..|segs| - 1], device) + EncodedPrefix(last.family, device, last.pages, |last.pages|)
  }

  function Blocks(segs: seq<Segment>): nat {
    if segs == [] then 0 else Blocks(segs[..|segs| - 1]) + |segs[|segs| - 1].pages|
  }

  // ---------- what is to be read ----------

  /** The wanted segments laid out one after the other; the gaps of the others leave their zeros too. */
  function LaidOut(segs: seq<Segment>, wanted: nat): Option<seq<Byte>> {
    if segs == [] then Some([])
    else
      var last := segs[|segs| - 1];
      match (LaidOut(segs[..|segs| - 1], wanted), Assembled(last.pages, Wanted(wanted, last.family)))
      case (Some(out), Some(more)) => Some(out + more)
      case _ => None
  }

  /** Where the last wanted segment starts. */
  function Base(segs: seq<Segment>, wanted: nat, base: Option<nat>): Option<nat> {
    if segs == [] then base
    else
      var last := segs[|segs| - 1];
      if last.pages != [] && Wanted(wanted, last.family) then Some(last.pages[0].addr)
      else Base(segs[..|segs| - 1], wanted, base)
  }

  function Families(segs: seq<Segment>): set<nat> {
    set s <- segs :: s.family
  }

  // ---------- one block ----------

  /** When the last block has been read and no family was asked for, several families give nothing. */
  function Finished(wanted: nat, r: Reader, last: bool): Reader {
    if last && |r.found| > 1 && wanted == 0 then r.(out := [], base := Some(0)) else r
  }

  lemma {:induction false} ReadTagged(wanted: nat, r: Reader, family: nat, device: nat, page: Page, number: nat,
                                      count: nat, last: bool)
    requires |page.data| == 256 && 0 < family < WORD_LIMIT && page.addr < WORD_LIMIT && number < WORD_LIMIT
    requires count < WORD_LIMIT && (r.curr == None <==> r.family == None)
    ensures var o := ReadBlock(wanted, r, EncodedBlock(family, device, page.addr, page.data, number, count), last);
            var restart := r.family != Some(family);
            var base := if restart && Wanted(wanted, family) then Some(page.addr) else r.base;
            var gap := if restart then 0 else page.addr - r.curr.value;
            var kept := if Wanted(wanted, family) then page.data else [];
            if 0 <= gap <= MAX_PADDING && gap % 4 == 0 then
              var next := Reader(Some(page.addr + 256), Some(family), r.found[family := Lowest(r, family, page.addr)],
                                 r.out + Zeros(gap) + kept, base);
              o == Running(Finished(wanted, next, last))
            else o == Failed(base)
  {
    hide EncodedBlock, Field, Flag, FlagsOf;
    BlockFields(family, device, page.addr, page.data, number, count);
    FlagsMeanFamily(family, device);
    assert Found(r.found, family, page.addr) == r.found[family := Lowest(r, family, page.addr)];
  }

  /** The lowest address of the family so far. */
  function Lowest(r: Reader, family: nat, addr: nat): nat {
    if family in r.found && r.found[family] <= addr then r.found[family] else addr
  }

  // ---------- one segment ----------

  /** The blocks of the segment stand in the file from block `start` on. */
  ghost predicate Stands(buf: seq<Byte>, start: nat, seg: Segment, device: nat)
    requires WholePages(seg.pages)
  {
    && 512 * (start + |seg.pages|) <= |buf|
    && buf[512 * start..512 * (start + |seg.pages|)] == EncodedPrefix(seg.family, device, seg.pages, |seg.pages|)
  }

  lemma {:induction false} SliceOfSlice(b: seq<Byte>, from: nat, to: nat, i: nat, j: nat)
    requires from <= to <= |b| && i <= j <= to - from
    ensures b[from..to][i..j] == b[from + i..from + j]
  {
    var x, y := b[from..to][i..j], b[from + i..from + j];
    assert |x| == |y|;
    forall k | 0 <= k < |x| ensures x[k] == y[k] {
      assert x[k] == b[from..to][i + k];
    }
  }

  lemma {:induction false} BlockStands(buf: seq<Byte>, start: nat, seg: Segment, device: nat, i: nat)
    requires WholePages(seg.pages) && Stands(buf, start, seg, device) && i < |seg.pages|
    ensures 512 * (start + i + 1) <= |buf|
    ensures buf[512 * (start + i)..512 * (start + i + 1)]
      == EncodedBlock(seg.family, device, seg.pages[i].addr, seg.pages[i].data, i, |seg.pages|)
  {
    hide EncodedBlock, EncodedPrefix, WholePages;
    PrefixBlock(seg.family, device, seg.pages, i, |seg.pages|);
    var enc := EncodedPrefix(seg.family, device, seg.pages, |seg.pages|);
    SliceOfSlice(buf, 512 * start, 512 * (start + |seg.pages|), 512 * i, 512 * (i + 1));
  }

  /** After the first `n` pages of a segment that began with `r`. */
  ghost predicate Reads(wanted: nat, r: Reader, seg: Segment, n: nat, last: bool, o: Outcome)
    requires n <= |seg.pages|
  {
    var keep := Wanted(wanted, seg.family);
    match Assembled(seg.pages[..n], keep)
    case None => o.Failed?
    case Some(out) =>
      exists found: map<nat, nat> ::
        && found.Keys == (if n == 0 then r.found.Keys else r.found.Keys + {seg.family})
        && o == Running(Finished(wanted, After(wanted, r, seg, n, out, found), last))
  }

  function After(wanted: nat, r: Reader, seg: Segment, n: nat, out: seq<Byte>, found: map<nat, nat>): Reader
    requires n <= |seg.pages|
  {
    Reader(if n == 0 then r.curr else Some(seg.pages[n - 1].addr + 256), if n == 0 then r.family else Some(seg.family),
           found, r.out + out, if n > 0 && Wanted(wanted, seg.family) then Some(seg.pages[0].addr) else r.base)
  }

  /** One more page, laid out behind the others or not at all. */
  lemma {:induction false} AfterNext(wanted: nat, r: Reader, seg: Segment, device: nat, n: nat, last: bool,
                                     out: seq<Byte>, found: map<nat, nat>)
    requires seg.family != 0 && Encodable(seg.family, seg.pages) && 0 < n <= |seg.pages|
    requires (r.curr == None <==> r.family == None) && r.family != Some(seg.family)
    ensures var p, before := seg.pages[n - 1], After(wanted, r, seg, n - 1, out, found);
            var gap := if n == 1 then 0 else p.addr - seg.pages[n - 2].addr - 256;
            var o := ReadBlock(wanted, before,
                               EncodedBlock(seg.family, device, p.addr, p.data, n - 1, |seg.pages|), last);
            if 0 <= gap <= MAX_PADDING && gap % 4 == 0 then
              o == Running(Finished(wanted,
                After(wanted, r, seg, n, out + Zeros(gap) + if Wanted(wanted, seg.family) then p.data else [],
                      found[seg.family := Lowest(before, seg.family, p.addr)]), last))
            else o.Failed?
  {
    hide EncodedBlock, ReadBlock, Zeros, Lowest;
    var p, before := seg.pages[n - 1], After(wanted, r, seg, n - 1, out, found);
    ReadTagged(wanted, before, seg.family, device, p, n - 1, |seg.pages|, last);
    var gap := if n == 1 then 0 else p.addr - seg.pages[n - 2].addr - 256;
    var kept := if Wanted(wanted, seg.family) then p.data else [];
    if gap >= 0 {
      assert r.out + out + Zeros(gap) + kept == r.out + (out + Zeros(gap) + kept);
    }
  }

  lemma {:induction false} ReadsNext(wanted: nat, r: Reader, seg: Segment, device: nat, n: nat, last: bool, o: Outcome)
    requires seg.family != 0 && Encodable(seg.family, seg.pages) && 0 < n <= |seg.pages|
    requires (r.curr == None <==> r.family == None) && r.family != Some(seg.family)
    requires Reads(wanted, r, seg, n - 1, false, o) && o.Running?
    ensures var p := seg.pages[n - 1];
            var block := EncodedBlock(seg.family, device, p.addr, p.data, n - 1, |seg.pages|);
            Reads(wanted, r, seg, n, last, ReadBlock(wanted, o.reader, block, last))
  {
    hide EncodedBlock, ReadBlock, Zeros, Assembled, Lowest, After, Encodable;
    var keep := Wanted(wanted, seg.family);
    var out := Assembled(seg.pages[..n - 1], keep).value;
    var found: map<nat, nat> :|
      && found.Keys == (if n - 1 == 0 then r.found.Keys else r.found.Keys + {seg.family})
      && o == Running(Finished(wanted, After(wanted, r, seg, n - 1, out, found), false));
    assert o.reader == After(wanted, r, seg, n - 1, out, found);
    AfterNext(wanted, r, seg, device, n, last, out, found);
    AssembledNext(seg.pages, n, keep);
    var found' := found[seg.family := Lowest(o.reader, seg.family, seg.pages[n - 1].addr)];
    assert found'.Keys == r.found.Keys + {seg.family};
  }

  lemma {:induction false} SegmentRead(wanted: nat, base: Option<nat>, buf: seq<Byte>, start: nat, r: Reader,
                                       seg: Segment, device: nat, n: nat)
    requires seg.family != 0 && Encodable(seg.family, seg.pages) && n <= |seg.pages| && Stands(buf, start, seg, device)
    requires (r.curr == None <==> r.family == None) && r.family != Some(seg.family)
    requires ReadPrefix(wanted, base, buf, start) == Running(r)
    ensures Reads(wanted, r, seg, n, n > 0 && start + n == |buf| / 512, ReadPrefix(wanted, base, buf, start + n))
    decreases n
  {
    hide EncodedBlock, ReadBlock, Assembled, Reads;
    if n == 0 {
      ReadsNothing(wanted, r, seg);
    } else {
      SegmentRead(wanted, base, buf, start, r, seg, device, n - 1);
      var o := ReadPrefix(wanted, base, buf, start + n - 1);
      var p, last := seg.pages[n - 1], start + n == |buf| / 512;
      BlockStands(buf, start, seg, device, n - 1);
      if o.Running? {
        ReadsNext(wanted, r, seg, device, n, last, o);
      } else {
        ReadsFailed(wanted, r, seg, n, last, o);
      }
    }
  }

  lemma {:induction false} ReadsNothing(wanted: nat, r: Reader, seg: Segment)
    ensures Reads(wanted, r, seg, 0, false, Running(r))
  {
    assert seg.pages[..0] == [] && r.out + [] == r.out;
    assert Running(r) == Running(Finished(wanted, After(wanted, r, seg, 0, [], r.found), false));
  }

  lemma {:induction false} ReadsFailed(wanted: nat, r: Reader, seg: Segment, n: nat, last: bool, o: Outcome)
    requires 0 < n <= |seg.pages| && o.Failed? && Reads(wanted, r, seg, n - 1, false, o)
    ensures Reads(wanted, r, seg, n, last, o)
  {
    hide Assembled;
    AssembledNext(seg.pages, n, Wanted(wanted, seg.family));
  }

  // ---------- all segments ----------

  /** What has been read when the first `n` segments are. */
  ghost predicate AllRead(wanted: nat, base: Option<nat>, segs: seq<Segment>, n: nat, last: bool, o: Outcome)
    requires n <= |segs|
  {
    match LaidOut(segs[..n], wanted)
    case None => o.Failed?
    case Some(out) =>
      exists r: Reader ::
        && r.out == out && r.base == Base(segs[..n], wanted, base) && r.found.Keys == Families(segs[..n])
        && (r.curr == None <==> r.family == None) && r.family == (if n == 0 then None else Some(segs[n - 1].family))
        && o == Running(Finished(wanted, r, last))
  }

  lemma {:induction false} LaidOutNext(segs: seq<Segment>, n: nat, wanted: nat, base: Option<nat>)
    requires 0 < n <= |segs| && segs[n - 1].pages != []
    ensures LaidOut(segs[..n], wanted) ==
      match (LaidOut(segs[..n - 1], wanted), Assembled(segs[n - 1].pages, Wanted(wanted, segs[n - 1].family)))
      case (Some(out), Some(more)) => Some(out + more)
      case _ => None
    ensures Base(segs[..n], wanted, base) ==
      if Wanted(wanted, segs[n - 1].family) then Some(segs[n - 1].pages[0].addr) else Base(segs[..n - 1], wanted, base)
    ensures Families(segs[..n]) == Families(segs[..n - 1]) + {segs[n - 1].family}
    ensures Blocks(segs[..n]) == Blocks(segs[..n - 1]) + |segs[n - 1].pages|
  {
    hide Assembled;
    assert segs[..n][..n - 1] == segs[..n - 1];
    assert segs[..n] == segs[..n - 1] + [segs[n - 1]];
  }

  lemma {:induction false} NextSegment(wanted: nat, base: Option<nat>, segs: seq<Segment>, n: nat, last: bool,
                                       r: Reader, o: Outcome)
    requires 0 < n <= |segs| && segs[n - 1].pages != []
    requires LaidOut(segs[..n - 1], wanted) == Some(r.out) && r.base == Base(segs[..n - 1], wanted, base)
    requires r.found.Keys == Families(segs[..n - 1])
    requires Reads(wanted, r, segs[n - 1], |segs[n - 1].pages|, last, o)
    ensures AllRead(wanted, base, segs, n, last, o)
  {
    hide Assembled, LaidOut, Base, Families;
    var seg := segs[n - 1];
    LaidOutNext(segs, n, wanted, base);
    assert seg.pages[..|seg.pages|] == seg.pages;
    var so := Assembled(seg.pages, Wanted(wanted, seg.family));
    if so.Some? {
      var found: map<nat, nat> :| found.Keys == r.found.Keys + {seg.family}
        && o == Running(Finished(wanted, After(wanted, r, seg, |seg.pages|, so.value, found), last));
      var r' := After(wanted, r, seg, |seg.pages|, so.value, found);
      assert r'.out == r.out + so.value;
    }
  }

  lemma {:induction false} JoinedStands(segs: seq<Segment>, device: nat, n: nat, m: nat)
    requires (forall i :: 0 <= i < |segs| ==> WholePages(segs[i].pages)) && n < m <= |segs|
    ensures Stands(Joined(segs[..m], device), Blocks(segs[..n]), segs[n], device)
    decreases m
  {
    hide EncodedPrefix, WholePages;
    var init := Joined(segs[..m - 1], device);
    assert segs[..m][..m - 1] == segs[..m - 1];
    if n < m - 1 {
      JoinedStands(segs, device, n, m - 1);
      var from, to := 512 * Blocks(segs[..n]), 512 * (Blocks(segs[..n]) + |segs[n].pages|);
      assert Joined(segs[..m], device)[from..to] == init[from..to];
    }
  }

  lemma {:induction false} SegmentsRead(wanted: nat, base: Option<nat>, segs: seq<Segment>, device: nat, n: nat)
    requires AreSegments(segs) && n <= |segs|
    ensures Blocks(segs[..n]) <= Blocks(segs)
    ensures AllRead(wanted, base, segs, n, n > 0 && n == |segs|,
                    ReadPrefix(wanted, base, Joined(segs, device), Blocks(segs[..n])))
    decreases n
  {
    hide EncodedBlock, EncodedPrefix, Assembled, Joined, ReadPrefix, LaidOut, Base, Families, Blocks, Reads, Stands;
    var buf := Joined(segs, device);
    if n > 0 {
      BlocksGrow(segs, n);
    }
    if n == 0 {
      NothingRead(wanted, base, segs, buf);
    } else {
      SegmentsRead(wanted, base, segs, device, n - 1);
      var seg, start := segs[n - 1], Blocks(segs[..n - 1]);
      var o := ReadPrefix(wanted, base, buf, start);
      assert segs[..|segs|] == segs;
      JoinedStands(segs, device, n - 1, |segs|);
      LaidOutNext(segs, n, wanted, base);
      if o.Running? {
        SegmentRead(wanted, base, buf, start, o.reader, seg, device, |seg.pages|);
        NextSegment(wanted, base, segs, n, n == |segs|, o.reader, ReadPrefix(wanted, base, buf, start + |seg.pages|));
      } else {
        FailureStays(wanted, base, buf, start, |seg.pages|);
      }
    }
  }

  lemma {:induction false} BlocksGrow(segs: seq<Segment>, n: nat)
    requires 0 < n <= |segs| && forall i :: 0 <= i < |segs| ==> segs[i].pages != []
    ensures Blocks(segs[..n]) <= Blocks(segs) && (Blocks(segs[..n]) == Blocks(segs) <==> n == |segs|)
    decreases |segs| - n
  {
    if n < |segs| {
      BlocksGrow(segs, n + 1);
      assert segs[..n + 1][..n] == segs[..n];
    } else {
      assert segs[..n] == segs;
    }
  }

  lemma {:induction false} NothingRead(wanted: nat, base: Option<nat>, segs: seq<Segment>, buf: seq<Byte>)
    ensures Blocks(segs[..0]) == 0
    ensures AllRead(wanted, base, segs, 0, false, ReadPrefix(wanted, base, buf, 0))
  {
    assert segs[..0] == [];
    var r := Reader(None, None, map[], [], base);
    assert r.found.Keys == Families([]);
    assert Running(r) == Running(Finished(wanted, r, false));
  }

  lemma {:induction false} FailureStays(wanted: nat, base: Option<nat>, buf: seq<Byte>, n: nat, k: nat)
    requires 512 * (n + k) <= |buf| && ReadPrefix(wanted, base, buf, n).Failed?
    ensures ReadPrefix(wanted, base, buf, n + k) == ReadPrefix(wanted, base, buf, n)
    decreases k
  {
    hide ReadBlock;
    if k > 0 {
      FailureStays(wanted, base, buf, n, k - 1);
    }
  }

  /** A file of several families: asked for one, the conversion gives its segments one after the other, starting where
      the last of them does; asked for none, it gives nothing unless all are of one family. It fails exactly when a
      segment, wanted or not, cannot be laid out. */
  lemma {:induction false} FamiliesRead(wanted: nat, base: Option<nat>, segs: seq<Segment>, device: nat)
    requires AreSegments(segs)
    ensures var o := ReadAll(wanted, base, Joined(segs, device));
            match LaidOut(segs, wanted)
            case None => o.Failed?
            case Some(out) =>
              && o.Running?
              && if wanted == 0 && |segs| > 1 then o.reader.out == [] && o.reader.base == Some(0)
                 else o.reader.out == out && o.reader.base == Base(segs, wanted, base)
  {
    hide Joined, ReadPrefix, LaidOut, Base, Families;
    SegmentsRead(wanted, base, segs, device, |segs|);
    assert segs[..|segs|] == segs;
    SeveralFamilies(segs);
    var o := ReadAll(wanted, base, Joined(segs, device));
    if LaidOut(segs, wanted).Some? {
      var r: Reader :| r.out == LaidOut(segs, wanted).value && r.base == Base(segs, wanted, base)
        && r.found.Keys == Families(segs)
        && o == Running(Finished(wanted, r, |segs| > 0));
      assert |r.found| == |r.found.Keys|;
    }
  }

  lemma {:induction false} SeveralFamilies(segs: seq<Segment>)
    requires AreSegments(segs)
    ensures |Families(segs)| > 1 <==> |segs| > 1
  {
    if |segs| > 1 {
      var two := {segs[0].family, segs[1].family};
      assert two <= Families(segs) && |two| == 2;
      Bigger(two, Families(segs));
    } else if |segs| == 1 {
      assert Families(segs) == {segs[0].family};
    } else {
      assert Families(segs) == {};
    }
  }

  lemma {:induction false} Bigger(a: set<nat>, b: set<nat>)
    requires a <= b
    ensures |a| <= |b|
  {
    assert a + (b - a) == b && a * (b - a) == {};
  }

  /** A segment that was not asked for leaves nothing in the output if and only if it has no gaps. */
  lemma {:induction false} UnwantedLeavesExactly(pages: seq<Page>)
    requires Assembled(pages, false).Some?
    ensures Assembled(pages, false) == Some([])
      <==> forall i :: 0 < i < |pages| ==> pages[i].addr == pages[i - 1].addr + 256
    decreases |pages|
  {
    if pages != [] {
      var n := |pages| - 1;
      var init := pages[..n];
      UnwantedLeavesExactly(init);
      assert forall i :: 0 <= i < n ==> init[i] == pages[i];
      var gap := if n == 0 then 0 else pages[n].addr - pages[n - 1].addr - 256;
      assert Assembled(pages, false) == Some(Assembled(init, false).value + Zeros(gap) + []);
      assert |Assembled(pages, false).value| == |Assembled(init, false).value| + gap;
      hide Assembled, Zeros;
      if forall i :: 0 < i < |pages| ==> pages[i].addr == pages[i - 1].addr + 256 {
        assert forall i :: 0 < i < |init| ==> init[i].addr == init[i - 1].addr + 256;
      }
      if Assembled(pages, false) == Some([]) {
        assert gap == 0 && |Assembled(init, false).value| == 0;
        assert Assembled(init, false).value == [];
        forall i | 0 < i < |pages| ensures pages[i].addr == pages[i - 1].addr + 256 {
          if i < n {
            assert init[i].addr == init[i - 1].addr + 256;
          }
        }
      }
    }
  }

  // ---------- single blocks ----------

  /** A block that is not for the main flash is passed over. */
  lemma {:induction false} NotFlashSkipped(wanted: nat, r: Reader, block: seq<Byte>, last: bool)
    requires |block| == 512 && GoodMagic(block) && Field(block, 2) % 2 == 1
    ensures ReadBlock(wanted, r, block, last) == Running(r)
  {
    hide Field;
  }

  /** The first block for the flash: up to 476 bytes of data are taken, when its family is the one asked for or none
      was; more end the conversion. */
  lemma {:induction false} FirstBlockRead(wanted: nat, base: Option<nat>, block: seq<Byte>, last: bool)
    requires |block| == 512 && GoodMagic(block) && Field(block, 2) % 2 == 0
    ensures var addr, size, family, tagged := Field(block, 3), Field(block, 4), Field(block, 7),
              Flag(Field(block, 2), HAS_FAMILY);
            var o := ReadBlock(wanted, Reader(None, None, map[], [], base), block, last);
            if size > 476 then o == Failed(base)
            else
              && o.Running? && o.reader.curr == Some(addr + size)
              && o.reader.out == (if wanted == 0 || (tagged && wanted == family) then block[32..32 + size] else [])
              && o.reader.base == (if wanted == 0 || wanted == family then Some(addr) else base)
              && o.reader.found == if tagged then map[family := addr] else map[]
  {
    hide Field;
  }

  /** A block without a family goes on where the last one ended, and is taken only when no family was asked for. */
  lemma {:induction false} UntaggedContinues(wanted: nat, r: Reader, block: seq<Byte>)
    requires |block| == 512 && GoodMagic(block) && Field(block, 2) % 2 == 0 && !Flag(Field(block, 2), HAS_FAMILY)
    requires Field(block, 4) <= 476 && r.curr.Some?
    ensures var gap, size := Field(block, 3) - r.curr.value, Field(block, 4);
            var o := ReadBlock(wanted, r, block, false);
            if 0 <= gap <= MAX_PADDING && gap % 4 == 0 then
              o == Running(r.(curr := Some(Field(block, 3) + size),
                              out := r.out + Zeros(gap) + if wanted == 0 then block[32..32 + size] else []))
            else o == Failed(r.base)
  {
    hide Field, Zeros;
  }
}
