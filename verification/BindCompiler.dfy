/**
 The bind compiler: a byte range is cut at the destination's pages, every piece is cut again at the
 source's pages, and physically adjacent pages are joined.
 */
module BindCompiler {
  import opened Results
  import opened Division
  import opened Pages
  import opened Runs

  /** A shared memory buffer: its extent and alignment offset, and its page frames. */
  datatype Smb = Smb(range: Range, frames: seq<nat>)

  // ---- What the cutting loops compute -----------------------------------------------------------

  /** The part of the range that lies in page `page`, at its physical address. */
  function PageRun(frames: seq<nat>, p: nat, start: nat, len: nat, page: nat): Run
    requires Mapped(frames, p, start, len) && len > 0
    requires Quot(start, p) <= page <= Quot(start + len - 1, p)
  {
    PageBounds(p, start, len, page);
    Run(Times(frames[page], p) + (Lo(p, start, page) - Times(page, p)), Hi(p, start, len, page) - Lo(p, start, page))
  }

  lemma PageRunIs(frames: seq<nat>, p: nat, start: nat, len: nat, page: nat)
    requires Mapped(frames, p, start, len) && len > 0
    requires Quot(start, p) <= page <= Quot(start + len - 1, p)
    ensures PageRun(frames, p, start, len, page)
         == Run(Times(frames[page], p) + (Lo(p, start, page) - Times(page, p)), Hi(p, start, len, page) - Lo(p, start, page))
  {
    PageBounds(p, start, len, page);
  }

  /** One run per page. */
  function PageRuns(frames: seq<nat>, p: nat, start: nat, len: nat): (rs: seq<Run>)
    requires Mapped(frames, p, start, len) && len > 0
    ensures |rs| == Quot(start + len - 1, p) - Quot(start, p) + 1
  {
    QuotMonotone(start, start + len - 1, p);
    hide PageRun;
    seq(Quot(start + len - 1, p) - Quot(start, p) + 1,
        (i: nat) requires i <= Quot(start + len - 1, p) - Quot(start, p) => PageRun(frames, p, start, len, Quot(start, p) + i))
  }

  /** The cut of a range: page by page, or with adjacent pages joined (OPTIMIZE_DESCRIPTORS). */
  function Cuts(join: bool, frames: seq<nat>, p: nat, start: nat, len: nat): seq<Run>
    requires Mapped(frames, p, start, len) && len > 0
  {
    if join then MaxRuns(PhysRange(frames, p, start, len)) else PageRuns(frames, p, start, len)
  }

  lemma PhysInPage(frames: seq<nat>, p: nat, page: nat, k: nat)
    requires p > 0 && page < |frames| && Times(page, p) <= k < Times(page, p) + p
    ensures Quot(k, p) == page && Phys(frames, p, k) == Times(frames[page], p) + (k - Times(page, p))
  {
    SplitUnique(page, k - Times(page, p), k, p);
  }

  /** A page's run visits what the page table says. */
  lemma PageRunBytes(frames: seq<nat>, p: nat, start: nat, len: nat, page: nat)
    requires Mapped(frames, p, start, len) && len > 0
    requires Quot(start, p) <= page <= Quot(start + len - 1, p)
    ensures var lo, hi := Lo(p, start, page), Hi(p, start, len, page);
            && start <= lo < hi <= start + len
            && Mapped(frames, p, lo, hi - lo)
            && Bytes(PageRun(frames, p, start, len, page)) == PhysRange(frames, p, lo, hi - lo)
  {
    PageBounds(p, start, len, page);
    var lo, hi := Lo(p, start, page), Hi(p, start, len, page);
    MappedPart(frames, p, start, len, lo - start, hi - lo);
    var a, b := Bytes(PageRun(frames, p, start, len, page)), PhysRange(frames, p, lo, hi - lo);
    var base := Times(page, p);
    forall k | 0 <= k < hi - lo ensures a[k] == b[k] {
      PhysRangeAt(frames, p, lo, hi - lo, k);
      PhysInPage(frames, p, page, lo + k);
    }
  }

  // ---- The state of a cutting loop ----------------------------------------------------------------

  /** How far the range is covered when page `page` is about to be cut. */
  function Covered(p: nat, start: nat, len: nat, page: nat): nat
    requires p > 0 && len > 0
  {
    if page > Quot(start + len - 1, p) then start + len else Lo(p, start, page)
  }

  /** `runs` covers the range up to page `page`, and is so far the wanted cut. */
  ghost predicate CutUpTo(join: bool, frames: seq<nat>, p: nat, start: nat, len: nat, page: nat, runs: seq<Run>) {
    && Mapped(frames, p, start, len) && len > 0
    && Quot(start, p) <= page <= Quot(start + len - 1, p) + 1
    && var covered := Covered(p, start, len, page);
    && start <= covered <= start + len
    && Mapped(frames, p, start, covered - start)
    && Flat(runs) == PhysRange(frames, p, start, covered - start)
    && Positive(runs)
    && (page == Quot(start, p) ==> runs == [])
    && (join ==> Separated(runs) && (page <= Quot(start + len - 1, p) ==> !EndsAt(runs, Times(frames[page], p))))
    && (!join ==> |runs| == page - Quot(start, p) &&
                  forall i {:trigger runs[i]} :: 0 <= i < |runs| ==> runs[i] == PageRun(frames, p, start, len, Quot(start, p) + i))
  }

  lemma CutStarts(join: bool, frames: seq<nat>, p: nat, start: nat, len: nat)
    requires Mapped(frames, p, start, len) && len > 0
    ensures CutUpTo(join, frames, p, start, len, Quot(start, p), [])
  {
    QuotMonotone(start, start + len - 1, p);
    PageBounds(p, start, len, Quot(start, p));
    hide PageRun;
  }

  /** A run that spans pages `page` to `upto`, grown page by page. */
  ghost predicate Spans(frames: seq<nat>, p: nat, start: nat, len: nat, page: nat, upto: nat, r: Run) {
    && Mapped(frames, p, start, len) && len > 0
    && Quot(start, p) <= page <= upto <= Quot(start + len - 1, p)
    && var lo, hi := Lo(p, start, page), Hi(p, start, len, upto);
    && start <= lo < hi <= start + len
    && Mapped(frames, p, lo, hi - lo)
    && Bytes(r) == PhysRange(frames, p, lo, hi - lo)
    && r.addr == Times(frames[page], p) + (lo - Times(page, p))
    && r.addr + r.len == Times(frames[upto], p) + (hi - Times(upto, p))
    && r.len == hi - lo
    && (page == upto ==> r == PageRun(frames, p, start, len, page))
  }

  lemma SpansOnePage(frames: seq<nat>, p: nat, start: nat, len: nat, page: nat)
    requires Mapped(frames, p, start, len) && len > 0
    requires Quot(start, p) <= page <= Quot(start + len - 1, p)
    ensures Spans(frames, p, start, len, page, page, PageRun(frames, p, start, len, page))
  {
    PageRunBytes(frames, p, start, len, page);
  }

  /** Joining the next page when its frame follows. */
  lemma SpansJoin(frames: seq<nat>, p: nat, start: nat, len: nat, page: nat, upto: nat, r: Run)
    requires Spans(frames, p, start, len, page, upto, r)
    requires upto < Quot(start + len - 1, p) && frames[upto] + 1 == frames[upto + 1]
    ensures var more := Hi(p, start, len, upto + 1) - Times(upto + 1, p);
            more > 0 && Spans(frames, p, start, len, page, upto + 1, Run(r.addr, r.len + more))
  {
    PageBounds(p, start, len, upto);
    PageBounds(p, start, len, upto + 1);
    TimesNext(frames[upto], p);
    PageRunBytes(frames, p, start, len, upto + 1);
    var lo, mid, hi := Lo(p, start, page), Hi(p, start, len, upto), Hi(p, start, len, upto + 1);
    var next := PageRun(frames, p, start, len, upto + 1);
    assert mid == Lo(p, start, upto + 1) == Times(upto + 1, p);
    assert next == Run(Times(frames[upto + 1], p), hi - mid);
    hide Phys, PhysRange, Bytes, Lo, Hi, PageRun;
    MappedPart(frames, p, start, len, lo - start, hi - lo);
    PhysRangeSplit(frames, p, lo, hi - lo, mid - lo);
    BytesJoin(r, next);
  }

  lemma BytesJoin(r: Run, next: Run)
    requires r.addr + r.len == next.addr
    ensures Bytes(Run(r.addr, r.len + next.len)) == Bytes(r) + Bytes(next)
  {
  }

  /** Emitting a run: a joined run may stop only where the next frame does not follow. */
  lemma CutEmits(join: bool, frames: seq<nat>, p: nat, start: nat, len: nat, page: nat, upto: nat, runs: seq<Run>, r: Run)
    requires CutUpTo(join, frames, p, start, len, page, runs)
    requires Spans(frames, p, start, len, page, upto, r)
    requires join ==> upto == Quot(start + len - 1, p) || frames[upto] + 1 != frames[upto + 1]
    requires !join ==> upto == page
    ensures CutUpTo(join, frames, p, start, len, upto + 1, runs + [r])
  {
    EmitBounds(frames, p, start, len, page, upto);
    hide Phys, PhysRange, Bytes, Lo, Hi, PageRun, Covered;
    EmitFlat(frames, p, start, len, page, upto, runs, r);
  }

  lemma EmitBounds(frames: seq<nat>, p: nat, start: nat, len: nat, page: nat, upto: nat)
    requires Mapped(frames, p, start, len) && len > 0
    requires Quot(start, p) <= page <= upto <= Quot(start + len - 1, p)
    ensures Covered(p, start, len, page) == Lo(p, start, page)
    ensures page > Quot(start, p) ==> Lo(p, start, page) == Times(page, p)
    ensures Covered(p, start, len, upto + 1) == Hi(p, start, len, upto)
    ensures upto < Quot(start + len - 1, p) ==>
              && Hi(p, start, len, upto) == Times(upto, p) + p
              && (Times(frames[upto + 1], p) == Times(frames[upto], p) + p ==> frames[upto] + 1 == frames[upto + 1])
  {
    PageBounds(p, start, len, page);
    PageBounds(p, start, len, upto);
    if upto < Quot(start + len - 1, p) {
      PageBounds(p, start, len, upto + 1);
      TimesNext(frames[upto], p);
      if Times(frames[upto + 1], p) == Times(frames[upto], p) + p { TimesInjective(frames[upto] + 1, frames[upto + 1], p); }
    }
  }

  lemma EmitFlat(frames: seq<nat>, p: nat, start: nat, len: nat, page: nat, upto: nat, runs: seq<Run>, r: Run)
    requires Spans(frames, p, start, len, page, upto, r)
    requires var covered := Lo(p, start, page);
             Mapped(frames, p, start, covered - start) && Flat(runs) == PhysRange(frames, p, start, covered - start)
    ensures var covered := Hi(p, start, len, upto);
            Mapped(frames, p, start, covered - start) && Flat(runs + [r]) == PhysRange(frames, p, start, covered - start)
  {
    var lo, hi := Lo(p, start, page), Hi(p, start, len, upto);
    hide Phys, PhysRange, Bytes, Lo, Hi, PageRun;
    MappedPart(frames, p, start, len, 0, hi - start);
    PhysRangeSplit(frames, p, start, hi - start, lo - start);
    FlatAppend(runs, r);
  }

  lemma CutDone(join: bool, frames: seq<nat>, p: nat, start: nat, len: nat, runs: seq<Run>)
    requires Mapped(frames, p, start, len) && len > 0
    requires CutUpTo(join, frames, p, start, len, Quot(start + len - 1, p) + 1, runs)
    ensures runs == Cuts(join, frames, p, start, len)
    ensures Flat(runs) == PhysRange(frames, p, start, len) && Positive(runs)
  {
    hide PageRun, Phys;
    if join {
      MaxRunsUnique(runs);
    } else {
      assert runs == PageRuns(frames, p, start, len);
    }
  }

  // ---- Buffers --------------------------------------------------------------------------------------

  /** What vfi_local_smb_create leaves behind: a 32-bit sum that did not wrap, and its pages. */
  predicate BufferReady(p: nat, smb: Smb) {
    && p > 0
    && smb.range.offset + smb.range.extent < U32
    && |smb.frames| == NumPages(p, smb.range.extent, smb.range.offset)
  }

  /** A range that passes DESC_VALID has a page for every byte. */
  lemma ValidRangeIsMapped(p: nat, smb: Smb, d: Range)
    requires BufferReady(p, smb) && d.extent > 0
    requires DescValid(smb.range, d) && d.offset + d.extent < U64
    ensures Mapped(smb.frames, p, smb.range.offset + d.offset, d.extent)
  {
    NumPagesIsCeiling(p, smb.range.extent, smb.range.offset);
    QuotMonotone(smb.range.offset + d.offset + d.extent - 1, smb.range.offset + smb.range.extent - 1, p);
  }

  // ---- Source fragments -------------------------------------------------------------------------------

  /** One hardware segment: copy `len` bytes from `saddr` to `daddr`. */
  datatype Seg = Seg(saddr: int, daddr: int, len: nat)

  /** What fits in an `unsigned int`. */
  function Trunc32(x: int): int { x % U32 }

  lemma Trunc32Add(x: int, y: int)
    ensures Trunc32(Trunc32(x) + y) == Trunc32(x + y)
  {
  }

  /** The segments that feed one destination run; the destination address travels in 32 bits. */
  function SrcsOf(runs: seq<Run>, daddr: int): seq<Seg> {
    if runs == [] then []
    else
      var init, end := runs[..|runs| - 1], runs[|runs| - 1];
      SrcsOf(init, daddr) + [Seg(end.addr, Trunc32(daddr + Total(init)), end.len)]
  }

  lemma SrcsOfAppend(runs: seq<Run>, r: Run, daddr: int)
    ensures SrcsOf(runs + [r], daddr) == SrcsOf(runs, daddr) + [Seg(r.addr, Trunc32(daddr + Total(runs)), r.len)]
  {
    assert (runs + [r])[..|runs|] == runs;
  }

  /** Two source fragments of one destination fragment may not share a name, which is address and extent. */
  predicate SrcNameTaken(segs: seq<Seg>, saddr: int, len: nat) {
    exists i | 0 <= i < |segs| :: segs[i].saddr == saddr && segs[i].len == len
  }

  function RangeStart(smb: Smb, d: Range): nat { smb.range.offset + d.offset }

  /** END_SIZE or a whole page: what the loops add or start with for the page after `page`. */
  lemma NextPartOfRange(p: nat, smb: Smb, desc: Range, page: nat)
    requires p > 0 && desc.extent > 0
    requires StartPage(p, smb.range, desc) <= page && page + 1 < StartPage(p, smb.range, desc) + NumDma(p, smb.range, desc)
    ensures var start, last := RangeStart(smb, desc), StartPage(p, smb.range, desc) + NumDma(p, smb.range, desc);
            var endSize := EndSize(p, smb.range, desc);
            && Lo(p, start, page + 1) == Times(page + 1, p)
            && Hi(p, start, desc.extent, page + 1) - Times(page + 1, p) == if page + 2 == last && endSize != 0 then endSize else p
  {
    PageBounds(p, RangeStart(smb, desc), desc.extent, page + 1);
    EndSizeIsLastPage(p, smb.range, desc);
  }

  /** The variables of the source loop when page `page` is next. */
  ghost predicate SrcLoop(join: bool, p: nat, smb: Smb, desc: Range, daddr: int, page: nat,
                          runs: seq<Run>, segs: seq<Seg>, srcOffset: int, srcExtent: int, dstExtent: int)
  {
    && p > 0 && desc.extent > 0
    && CutUpTo(join, smb.frames, p, RangeStart(smb, desc), desc.extent, page, runs)
    && segs == SrcsOf(runs, daddr)
    && dstExtent == Trunc32(daddr + Total(runs))
    && (page <= EndPage(p, smb.range, desc) ==> PageAhead(p, smb, desc, page, srcOffset, srcExtent))
  }

  /** Offset into, and bytes of, the page about to be cut. */
  ghost predicate PageAhead(p: nat, smb: Smb, desc: Range, page: nat, offset: int, extent: int)
    requires p > 0
  {
    && offset == Lo(p, RangeStart(smb, desc), page) - Times(page, p)
    && extent == Hi(p, RangeStart(smb, desc), desc.extent, page) - Lo(p, RangeStart(smb, desc), page)
  }

  lemma FirstPageAhead(p: nat, smb: Smb, desc: Range)
    requires p > 0 && desc.extent > 0
    ensures PageAhead(p, smb, desc, StartPage(p, smb.range, desc), StartOffset(p, smb.range, desc), StartSize(p, smb.range, desc))
  {
    StartIsFirstPage(p, smb.range, desc);
    Split(RangeStart(smb, desc), p);
  }

  /** The page ahead, reached through its frame, is a run of one page. */
  lemma FirstOfRun(p: nat, smb: Smb, desc: Range, page: nat, offset: int, extent: int)
    requires desc.extent > 0 && Mapped(smb.frames, p, RangeStart(smb, desc), desc.extent)
    requires StartPage(p, smb.range, desc) <= page <= EndPage(p, smb.range, desc)
    requires PageAhead(p, smb, desc, page, offset, extent)
    ensures page < |smb.frames| && extent > 0
    ensures Spans(smb.frames, p, RangeStart(smb, desc), desc.extent, page, page, Run(offset + Times(smb.frames[page], p), extent))
  {
    QuotMonotone(RangeStart(smb, desc), RangeStart(smb, desc) + desc.extent - 1, p);
    PageBounds(p, RangeStart(smb, desc), desc.extent, page);
    PageRunIs(smb.frames, p, RangeStart(smb, desc), desc.extent, page);
    SpansOnePage(smb.frames, p, RangeStart(smb, desc), desc.extent, page);
  }

  /** Emitting a joined run and setting up the page after it. */
  lemma SrcTurn(join: bool, p: nat, smb: Smb, desc: Range, daddr: int, from: nat, page: nat,
                runs: seq<Run>, segs: seq<Seg>, addr: int, extent: nat, dstExtent: int, next: int, o: int, e: int)
    requires SrcLoop(join, p, smb, desc, daddr, from, runs, segs, o, e, dstExtent)
    requires Spans(smb.frames, p, RangeStart(smb, desc), desc.extent, from, page, Run(addr, extent))
    requires join ==> page == EndPage(p, smb.range, desc) || smb.frames[page] + 1 != smb.frames[page + 1]
    requires !join ==> page == from
    requires next == if page + 1 >= EndPage(p, smb.range, desc) && EndSize(p, smb.range, desc) != 0 then EndSize(p, smb.range, desc) else p
    ensures SrcLoop(join, p, smb, desc, daddr, page + 1, runs + [Run(addr, extent)], segs + [Seg(addr, dstExtent, extent)],
                    0, next, Trunc32(dstExtent + extent))
  {
    hide Trunc32, SrcsOf, Total, Flat, PhysRange;
    CutEmits(join, smb.frames, p, RangeStart(smb, desc), desc.extent, from, page, runs, Run(addr, extent));
    SrcsOfAppend(runs, Run(addr, extent), daddr);
    TotalAppend(runs, Run(addr, extent), daddr);
    if page < EndPage(p, smb.range, desc) {
      NextPartOfRange(p, smb, desc, page);
    }
  }

  lemma TotalAppend(runs: seq<Run>, r: Run, daddr: int)
    ensures Trunc32(daddr + Total(runs + [r])) == Trunc32(Trunc32(daddr + Total(runs)) + r.len)
  {
    hide Trunc32, Total, Flat, Bytes;
    FlatAppend(runs, r);
    Trunc32Add(daddr + Total(runs), r.len);
  }

  /** The head of the page loops: reach the page through its frame, then `goto join` while the next frame follows. */
  method NextRun(join: bool, p: nat, smb: Smb, desc: Range, from: nat, offset: int, size: int)
    returns (page: nat, addr: int, extent: nat)
    requires desc.extent > 0 && Mapped(smb.frames, p, RangeStart(smb, desc), desc.extent)
    requires StartPage(p, smb.range, desc) <= from <= EndPage(p, smb.range, desc)
    requires PageAhead(p, smb, desc, from, offset, size)
    ensures from <= page <= EndPage(p, smb.range, desc) < |smb.frames|
    ensures Spans(smb.frames, p, RangeStart(smb, desc), desc.extent, from, page, Run(addr, extent))
    ensures join ==> page == EndPage(p, smb.range, desc) || smb.frames[page] + 1 != smb.frames[page + 1]
    ensures !join ==> page == from
  {
    var last := StartPage(p, smb.range, desc) + NumDma(p, smb.range, desc);
    var endSize := EndSize(p, smb.range, desc);
    FirstOfRun(p, smb, desc, from, offset, size);
    page, addr, extent := from, offset + Times(smb.frames[from], p), size;
    while join && page + 2 <= last && smb.frames[page] + 1 == smb.frames[page + 1]
      invariant from <= page < last && Spans(smb.frames, p, RangeStart(smb, desc), desc.extent, from, page, Run(addr, extent))
      invariant !join ==> page == from
      decreases last - page
    {
      SpansJoin(smb.frames, p, RangeStart(smb, desc), desc.extent, from, page, Run(addr, extent));
      NextPartOfRange(p, smb, desc, page);
      hide *;
      if page + 2 == last && endSize != 0 {
        extent := extent + endSize;
      } else {
        extent := extent + p;
      }
      page := page + 1;
    }
  }

  /** With distinct frames no run starts where an earlier one does: a name can be taken only when a frame is used twice. */
  lemma DistinctFramesDistinctRuns(join: bool, frames: seq<nat>, p: nat, start: nat, len: nat, page: nat, upto: nat, runs: seq<Run>, r: Run, i: nat)
    requires CutUpTo(join, frames, p, start, len, page, runs)
    requires Spans(frames, p, start, len, page, upto, r)
    requires join ==> upto == Quot(start + len - 1, p) || frames[upto] + 1 != frames[upto + 1]
    requires !join ==> upto == page
    requires i < |runs|
    ensures Distinct(frames) ==> runs[i].addr != r.addr
  {
    if Distinct(frames) {
      CutEmits(join, frames, p, start, len, page, upto, runs, r);
      var more := runs + [r];
      hide Phys, Times, Quot, Flat;
      DistinctFramesDistinctBytes(frames, p, start, Covered(p, start, len, upto + 1) - start);
      DistinctStarts(more);
      assert more[i] == runs[i] && more[|runs|] == r;
    }
  }

  lemma {:induction false} SrcsOfAt(runs: seq<Run>, daddr: int)
    ensures |SrcsOf(runs, daddr)| == |runs|
    ensures forall i {:trigger SrcsOf(runs, daddr)[i]} {:trigger runs[i]} :: 0 <= i < |runs| ==>
              SrcsOf(runs, daddr)[i].saddr == runs[i].addr && SrcsOf(runs, daddr)[i].len == runs[i].len
  {
    if runs != [] {
      SrcsOfAt(runs[..|runs| - 1], daddr);
    }
  }

  lemma TakenSrcSharesFrame(join: bool, p: nat, smb: Smb, desc: Range, daddr: int, from: nat, page: nat, runs: seq<Run>, segs: seq<Seg>, r: Run)
    requires p > 0 && desc.extent > 0
    requires CutUpTo(join, smb.frames, p, RangeStart(smb, desc), desc.extent, from, runs)
    requires Spans(smb.frames, p, RangeStart(smb, desc), desc.extent, from, page, r)
    requires join ==> page == EndPage(p, smb.range, desc) || smb.frames[page] + 1 != smb.frames[page + 1]
    requires !join ==> page == from
    requires segs == SrcsOf(runs, daddr) && SrcNameTaken(segs, r.addr, r.len)
    ensures !Distinct(smb.frames)
  {
    SrcsOfAt(runs, daddr);
    var i :| 0 <= i < |segs| && segs[i].saddr == r.addr && segs[i].len == r.len;
    assert runs[i].addr == r.addr;
    DistinctFramesDistinctRuns(join, smb.frames, p, RangeStart(smb, desc), desc.extent, from, page, runs, r, i);
  }

  /** The page loop of vfi_local_srcs_create. */
  method CutSources(join: bool, p: nat, smb: Smb, desc: Range, daddr: int) returns (r: Result<seq<Seg>>)
    requires desc.extent > 0 && Mapped(smb.frames, p, RangeStart(smb, desc), desc.extent)
    ensures r.Ok? ==> r.value == SrcsOf(Cuts(join, smb.frames, p, RangeStart(smb, desc), desc.extent), daddr)
    ensures r.Err? ==> !Distinct(smb.frames)
  {
    CutStarts(join, smb.frames, p, RangeStart(smb, desc), desc.extent);
    FirstPageAhead(p, smb, desc);
    ghost var runs: seq<Run> := [];
    var first := StartPage(p, smb.range, desc);
    var last := first + NumDma(p, smb.range, desc);
    var endSize := EndSize(p, smb.range, desc);

    var segs: seq<Seg> := [];
    var page := first;
    var srcOffset := StartOffset(p, smb.range, desc);
    var dstExtent := Trunc32(daddr);
    var srcExtent: int := StartSize(p, smb.range, desc);
    assert SrcLoop(join, p, smb, desc, daddr, page, runs, segs, srcOffset, srcExtent, dstExtent);
    hide Trunc32, SrcsOf, Total, Flat, PhysRange, Phys, Times, Quot, Rem, MaxRuns, PageRuns, PageRun, Lo, Hi, Covered, EndSize, Bytes;
    while page < last
      invariant first <= page <= last && srcExtent >= 0
      invariant SrcLoop(join, p, smb, desc, daddr, page, runs, segs, srcOffset, srcExtent, dstExtent)
    {
      ghost var from, o, e := page, srcOffset, srcExtent;
      page, srcOffset, srcExtent := NextRun(join, p, smb, desc, page, srcOffset, srcExtent);
      if SrcNameTaken(segs, srcOffset, srcExtent) {
        TakenSrcSharesFrame(join, p, smb, desc, daddr, from, page, runs, segs, Run(srcOffset, srcExtent));
        return Err(Exists);
      }
      var next := if page + 2 >= last && endSize != 0 then endSize else p;
      SrcTurn(join, p, smb, desc, daddr, from, page, runs, segs, srcOffset, srcExtent, dstExtent, next, o, e);
      runs := runs + [Run(srcOffset, srcExtent)];
      segs := segs + [Seg(srcOffset, dstExtent, srcExtent)];
      srcOffset, dstExtent, srcExtent, page := 0, Trunc32(dstExtent + srcExtent), next, page + 1;
    }
    CutDone(join, smb.frames, p, RangeStart(smb, desc), desc.extent, runs);
    r := Ok(segs);
  }

  /** vfi_local_srcs_create: the pieces of one destination fragment, cut at source pages. */
  method SrcsCreate(join: bool, p: nat, smb: Smb, desc: Range, daddr: int) returns (r: Result<seq<Seg>>)
    requires BufferReady(p, smb) && desc.extent > 0 && desc.offset + desc.extent < U64
    ensures DescValid(smb.range, desc) ==> Mapped(smb.frames, p, RangeStart(smb, desc), desc.extent)
    ensures r.Err? ==> !DescValid(smb.range, desc) || !Distinct(smb.frames)
    ensures r.Ok? ==> DescValid(smb.range, desc) &&
                      r.value == SrcsOf(Cuts(join, smb.frames, p, RangeStart(smb, desc), desc.extent), daddr)
  {
    if !DescValid(smb.range, desc) {
      return Err(Invalid);
    }
    ValidRangeIsMapped(p, smb, desc);
    r := CutSources(join, p, smb, desc, daddr);
  }
}
