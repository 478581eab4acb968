/**
 Creating a bind: extent checks, destination fragments, and the source fragments that feed each of them.
 */
module Binds {
  import opened Results
  import opened Division
  import opened Pages
  import opened Runs
  import opened BindCompiler

  // ---- Destination fragments ------------------------------------------------------------------------

  /** A destination fragment at physical address `addr`, with the segments that fill it. */
  datatype Dst = Dst(addr: int, len: nat, srcs: seq<Seg>)

  /** The fragments of a bind: each destination run takes the next bytes of the source range. */
  function DstsOf(join: bool, sp: nat, sframes: seq<nat>, sstart: nat, runs: seq<Run>): seq<Dst> {
    if runs == [] then []
    else
      var init, end := runs[..|runs| - 1], runs[|runs| - 1];
      DstsOf(join, sp, sframes, sstart, init) + [DstOf(join, sp, sframes, sstart + Total(init), end)]
  }

  /** One fragment; a run without bytes, or without source pages, has no segments. */
  function DstOf(join: bool, sp: nat, sframes: seq<nat>, start: nat, r: Run): Dst {
    Dst(r.addr, r.len, if r.len > 0 && Mapped(sframes, sp, start, r.len) then SrcsOf(Cuts(join, sframes, sp, start, r.len), r.addr) else [])
  }

  lemma DstsOfAppend(join: bool, sp: nat, sframes: seq<nat>, sstart: nat, runs: seq<Run>, r: Run)
    ensures DstsOf(join, sp, sframes, sstart, runs + [r])
         == DstsOf(join, sp, sframes, sstart, runs) + [DstOf(join, sp, sframes, sstart + Total(runs), r)]
  {
    hide DstOf, Total;
    assert (runs + [r])[..|runs|] == runs && (runs + [r])[|runs|] == r;
  }

  lemma {:induction false} DstsOfAt(join: bool, sp: nat, sframes: seq<nat>, sstart: nat, runs: seq<Run>)
    ensures var ds := DstsOf(join, sp, sframes, sstart, runs);
            |ds| == |runs| && forall i {:trigger ds[i]} {:trigger runs[i]} :: 0 <= i < |runs| ==> Run(ds[i].addr, ds[i].len) == runs[i]
  {
    if runs != [] {
      DstsOfAt(join, sp, sframes, sstart, runs[..|runs| - 1]);
    }
  }

  /** Two destination fragments of one bind may not share a name, which is the physical address. */
  predicate DstNameTaken(dsts: seq<Dst>, addr: int) {
    exists i | 0 <= i < |dsts| :: dsts[i].addr == addr
  }

  /** A bind's specification: transfer, destination, source. */
  datatype BindParam = BindParam(xfer: Range, dst: Range, src: Range)

  /** The variables of the destination loop when page `page` is next. */
  ghost predicate DstLoop(join: bool, dp: nat, dsmb: Smb, sp: nat, ssmb: Smb, desc: BindParam, page: nat,
                          runs: seq<Run>, dsts: seq<Dst>, dstOffset: int, extent: int, srcOffset: int)
  {
    && dp > 0 && desc.dst.extent > 0
    && CutUpTo(join, dsmb.frames, dp, RangeStart(dsmb, desc.dst), desc.dst.extent, page, runs)
    && Mapped(ssmb.frames, sp, RangeStart(ssmb, desc.src), desc.dst.extent)
    && dsts == DstsOf(join, sp, ssmb.frames, RangeStart(ssmb, desc.src), runs)
    && srcOffset == desc.src.offset + Total(runs)
    && (page <= EndPage(dp, dsmb.range, desc.dst) ==> PageAhead(dp, dsmb, desc.dst, page, dstOffset, extent))
  }

  lemma DstLoopStarts(join: bool, dp: nat, dsmb: Smb, sp: nat, ssmb: Smb, desc: BindParam)
    requires desc.dst.extent > 0 && Mapped(dsmb.frames, dp, RangeStart(dsmb, desc.dst), desc.dst.extent)
    requires Mapped(ssmb.frames, sp, RangeStart(ssmb, desc.src), desc.dst.extent)
    ensures DstLoop(join, dp, dsmb, sp, ssmb, desc, StartPage(dp, dsmb.range, desc.dst), [], [],
                    StartOffset(dp, dsmb.range, desc.dst), StartSize(dp, dsmb.range, desc.dst), desc.src.offset)
  {
    CutStarts(join, dsmb.frames, dp, RangeStart(dsmb, desc.dst), desc.dst.extent);
    FirstPageAhead(dp, dsmb, desc.dst);
  }

  /** A run about to be emitted leaves room for its source bytes. */
  lemma RoomForRun(join: bool, dp: nat, dsmb: Smb, desc: BindParam, from: nat, page: nat, runs: seq<Run>, r: Run)
    requires dp > 0 && desc.dst.extent > 0
    requires CutUpTo(join, dsmb.frames, dp, RangeStart(dsmb, desc.dst), desc.dst.extent, from, runs)
    requires Spans(dsmb.frames, dp, RangeStart(dsmb, desc.dst), desc.dst.extent, from, page, r)
    ensures r.len > 0 && Total(runs) + r.len <= desc.dst.extent
  {
    FlatLength(runs);
    EmitBounds(dsmb.frames, dp, RangeStart(dsmb, desc.dst), desc.dst.extent, from, page);
  }

  lemma DstTurn(join: bool, dp: nat, dsmb: Smb, sp: nat, ssmb: Smb, desc: BindParam, from: nat, page: nat,
                runs: seq<Run>, dsts: seq<Dst>, r: Run, srcOffset: int, next: int, o: int, e: int)
    requires DstLoop(join, dp, dsmb, sp, ssmb, desc, from, runs, dsts, o, e, srcOffset)
    requires Spans(dsmb.frames, dp, RangeStart(dsmb, desc.dst), desc.dst.extent, from, page, r)
    requires join ==> page == EndPage(dp, dsmb.range, desc.dst) || dsmb.frames[page] + 1 != dsmb.frames[page + 1]
    requires !join ==> page == from
    requires next == if page + 1 == EndPage(dp, dsmb.range, desc.dst) && EndSize(dp, dsmb.range, desc.dst) != 0 then EndSize(dp, dsmb.range, desc.dst) else dp
    ensures r.len > 0 && Mapped(ssmb.frames, sp, RangeStart(ssmb, desc.src) + Total(runs), r.len)
    ensures DstLoop(join, dp, dsmb, sp, ssmb, desc, page + 1, runs + [r],
                    dsts + [DstOf(join, sp, ssmb.frames, RangeStart(ssmb, desc.src) + Total(runs), r)], 0, next, srcOffset + r.len)
  {
    hide DstsOf, DstOf, Total, Flat, PhysRange, Trunc32;
    RoomForRun(join, dp, dsmb, desc, from, page, runs, r);
    MappedPart(ssmb.frames, sp, RangeStart(ssmb, desc.src), desc.dst.extent, Total(runs), r.len);
    DstsOfAppend(join, sp, ssmb.frames, RangeStart(ssmb, desc.src), runs, r);
    FlatAppend(runs, r);
    CutEmits(join, dsmb.frames, dp, RangeStart(dsmb, desc.dst), desc.dst.extent, from, page, runs, r);
    if page < EndPage(dp, dsmb.range, desc.dst) {
      NextPartOfRange(dp, dsmb, desc.dst, page);
    }
  }

  lemma TakenDstSharesFrame(join: bool, dp: nat, dsmb: Smb, sp: nat, ssmb: Smb, desc: BindParam, from: nat, page: nat,
                            runs: seq<Run>, dsts: seq<Dst>, r: Run, srcOffset: int, o: int, e: int)
    requires DstLoop(join, dp, dsmb, sp, ssmb, desc, from, runs, dsts, o, e, srcOffset)
    requires Spans(dsmb.frames, dp, RangeStart(dsmb, desc.dst), desc.dst.extent, from, page, r)
    requires join ==> page == EndPage(dp, dsmb.range, desc.dst) || dsmb.frames[page] + 1 != dsmb.frames[page + 1]
    requires !join ==> page == from
    requires DstNameTaken(dsts, r.addr)
    ensures !Distinct(dsmb.frames)
  {
    hide DstsOf, Total, Flat, PhysRange;
    DstsOfAt(join, sp, ssmb.frames, RangeStart(ssmb, desc.src), runs);
    var i :| 0 <= i < |dsts| && dsts[i].addr == r.addr;
    assert runs[i].addr == r.addr;
    DistinctFramesDistinctRuns(join, dsmb.frames, dp, RangeStart(dsmb, desc.dst), desc.dst.extent, from, page, runs, r, i);
  }

  /** A piece of a valid range is a valid range. */
  lemma PieceIsValid(b: Range, d: Range, off: nat, len: nat)
    requires DescValid(b, d) && d.offset + d.extent < U64 && off + len <= d.extent
    ensures DescValid(b, Range(d.offset + off, len)) && d.offset + off + len < U64
  {
  }

  /** Both buffers exist, and both ranges passed their checks with one common extent. */
  ghost predicate Bindable(dp: nat, dsmb: Smb, sp: nat, ssmb: Smb, desc: BindParam) {
    && BufferReady(dp, dsmb) && BufferReady(sp, ssmb)
    && desc.dst.extent == desc.src.extent > 0
    && desc.dst.offset + desc.dst.extent < U64 && desc.src.offset + desc.src.extent < U64
    && DescValid(dsmb.range, desc.dst) && DescValid(ssmb.range, desc.src)
  }

  lemma BindableIsMapped(dp: nat, dsmb: Smb, sp: nat, ssmb: Smb, desc: BindParam)
    requires Bindable(dp, dsmb, sp, ssmb, desc)
    ensures Mapped(dsmb.frames, dp, RangeStart(dsmb, desc.dst), desc.dst.extent)
    ensures Mapped(ssmb.frames, sp, RangeStart(ssmb, desc.src), desc.dst.extent)
  {
    ValidRangeIsMapped(dp, dsmb, desc.dst);
    ValidRangeIsMapped(sp, ssmb, desc.src);
  }

  /** The fragments a bind compiles to. */
  function Compiled(join: bool, dp: nat, dsmb: Smb, sp: nat, ssmb: Smb, desc: BindParam): seq<Dst>
    requires desc.dst.extent > 0 && Mapped(dsmb.frames, dp, RangeStart(dsmb, desc.dst), desc.dst.extent)
  {
    DstsOf(join, sp, ssmb.frames, RangeStart(ssmb, desc.src),
           Cuts(join, dsmb.frames, dp, RangeStart(dsmb, desc.dst), desc.dst.extent))
  }

  /** vfi_local_dst_create: name the fragment, then have its source fragments created. */
  method DstCreate(join: bool, sp: nat, ssmb: Smb, siblings: seq<Dst>, addr: int, extent: nat, srcOffset: nat) returns (r: Result<Dst>)
    requires BufferReady(sp, ssmb) && extent > 0
    requires DescValid(ssmb.range, Range(srcOffset, extent)) && srcOffset + extent < U64
    ensures r.Ok? ==> r.value == DstOf(join, sp, ssmb.frames, ssmb.range.offset + srcOffset, Run(addr, extent)) && r.value.len == extent
    ensures r.Err? ==> DstNameTaken(siblings, addr) || !Distinct(ssmb.frames)
  {
    if DstNameTaken(siblings, addr) {
      return Err(Exists);
    }
    var srcs := SrcsCreate(join, sp, ssmb, Range(srcOffset, extent), addr);
    if srcs.Err? {
      return Err(srcs.error);
    }
    r := Ok(Dst(addr, extent, srcs.value));
  }

  /** Both sides of the loop are set up: the ranges have pages, and the source range passed its check. */
  ghost predicate Ready(dp: nat, dsmb: Smb, sp: nat, ssmb: Smb, desc: BindParam) {
    && desc.dst.extent == desc.src.extent > 0
    && Mapped(dsmb.frames, dp, RangeStart(dsmb, desc.dst), desc.dst.extent)
    && BufferReady(sp, ssmb) && DescValid(ssmb.range, desc.src) && desc.src.offset + desc.src.extent < U64
  }

  /** One turn of the page loop: the next run of pages becomes a fragment. */
  method NextDst(join: bool, dp: nat, dsmb: Smb, sp: nat, ssmb: Smb, desc: BindParam, from: nat,
                 dsts: seq<Dst>, dstOffset: int, size: int, srcOffset: int, ghost runs: seq<Run>)
    returns (r: Result<Dst>, page: nat, next: nat, ghost run: Run)
    requires Ready(dp, dsmb, sp, ssmb, desc)
    requires StartPage(dp, dsmb.range, desc.dst) <= from <= EndPage(dp, dsmb.range, desc.dst)
    requires DstLoop(join, dp, dsmb, sp, ssmb, desc, from, runs, dsts, dstOffset, size, srcOffset)
    ensures from < page <= EndPage(dp, dsmb.range, desc.dst) + 1
    ensures r.Err? ==> !Distinct(dsmb.frames) || !Distinct(ssmb.frames)
    ensures r.Ok? ==> DstLoop(join, dp, dsmb, sp, ssmb, desc, page, runs + [run], dsts + [r.value], 0, next, srcOffset + r.value.len)
  {
    hide DstsOf, DstOf, Total, Flat, PhysRange, Trunc32, Quot, DescValid;
    var upto, addr, extent := NextRun(join, dp, dsmb, desc.dst, from, dstOffset, size);
    run := Run(addr, extent);
    RoomForRun(join, dp, dsmb, desc, from, upto, runs, run);
    PieceIsValid(ssmb.range, desc.src, Total(runs), extent);
    r := DstCreate(join, sp, ssmb, dsts, addr, extent, srcOffset);
    next := if upto + 1 == EndPage(dp, dsmb.range, desc.dst) && EndSize(dp, dsmb.range, desc.dst) != 0
            then EndSize(dp, dsmb.range, desc.dst) else dp;
    page := upto + 1;
    if r.Ok? {
      DstTurn(join, dp, dsmb, sp, ssmb, desc, from, upto, runs, dsts, run, srcOffset, next, dstOffset, size);
    } else if DstNameTaken(dsts, addr) {
      TakenDstSharesFrame(join, dp, dsmb, sp, ssmb, desc, from, upto, runs, dsts, run, srcOffset, dstOffset, size);
    }
  }

  /** The page loop of vfi_local_dsts_create. */
  method CutDestinations(join: bool, dp: nat, dsmb: Smb, sp: nat, ssmb: Smb, desc: BindParam) returns (r: Result<seq<Dst>>)
    requires Ready(dp, dsmb, sp, ssmb, desc)
    requires Mapped(ssmb.frames, sp, RangeStart(ssmb, desc.src), desc.dst.extent)
    ensures r.Ok? ==> r.value == Compiled(join, dp, dsmb, sp, ssmb, desc)
    ensures r.Err? ==> !Distinct(dsmb.frames) || !Distinct(ssmb.frames)
  {
    hide DstsOf, DstOf, Total, Flat, PhysRange, DescValid, BufferReady;
    DstLoopStarts(join, dp, dsmb, sp, ssmb, desc);
    ghost var runs: seq<Run> := [];
    var page, last := StartPage(dp, dsmb.range, desc.dst), EndPage(dp, dsmb.range, desc.dst) + 1;
    QuotMonotone(RangeStart(dsmb, desc.dst), RangeStart(dsmb, desc.dst) + desc.dst.extent - 1, dp);

    var dsts: seq<Dst> := [];
    var dstOffset: int := StartOffset(dp, dsmb.range, desc.dst);
    var extent: int := StartSize(dp, dsmb.range, desc.dst);
    var srcOffset: int := desc.src.offset;
    while page < last
      invariant StartPage(dp, dsmb.range, desc.dst) <= page <= last
      invariant DstLoop(join, dp, dsmb, sp, ssmb, desc, page, runs, dsts, dstOffset, extent, srcOffset)
    {
      var dst, upto, next, run := NextDst(join, dp, dsmb, sp, ssmb, desc, page, dsts, dstOffset, extent, srcOffset, runs);
      if dst.Err? {
        return Err(dst.error);
      }
      runs := runs + [run];
      dsts := dsts + [dst.value];
      page, dstOffset, srcOffset, extent := upto, 0, srcOffset + dst.value.len, next;
    }
    CutDone(join, dsmb.frames, dp, RangeStart(dsmb, desc.dst), desc.dst.extent, runs);
    r := Ok(dsts);
  }

  /**
   vfi_local_dsts_create: one destination fragment per run of destination pages, each cut again at
   the source.  It can fail only when a page table maps one frame twice, so that two names collide.
   */
  method DstsCreate(join: bool, dp: nat, dsmb: Smb, sp: nat, ssmb: Smb, desc: BindParam) returns (r: Result<seq<Dst>>)
    requires Bindable(dp, dsmb, sp, ssmb, desc)
    ensures Mapped(dsmb.frames, dp, RangeStart(dsmb, desc.dst), desc.dst.extent)
    ensures r.Ok? ==> r.value == Compiled(join, dp, dsmb, sp, ssmb, desc)
    ensures r.Err? ==> !Distinct(dsmb.frames) || !Distinct(ssmb.frames)
  {
    BindableIsMapped(dp, dsmb, sp, ssmb, desc);
    r := CutDestinations(join, dp, dsmb, sp, ssmb, desc);
  }

  // ---- bind_create --------------------------------------------------------------------------------------

  /** valid_extents: substitute unspecified (zero) extents, then demand that all three agree. */
  method ValidExtents(x: BindParam) returns (ok: bool, y: BindParam)
    ensures ok <==> exists e :: AgreeOn(x, e)
    ensures ok ==> AgreeOn(x, y.dst.extent) && y == BindParam(x.xfer.(extent := y.dst.extent), x.dst.(extent := y.dst.extent), x.src.(extent := y.dst.extent))
  {
    y := x;
    if y.xfer.extent == 0 && y.dst.extent == 0 && y.src.extent == 0 {
      return false, y;
    }
    if y.dst.extent == 0 && y.src.extent == 0 {
      y := y.(dst := y.dst.(extent := y.xfer.extent), src := y.src.(extent := y.xfer.extent));
      assert AgreeOn(x, y.dst.extent);
      return true, y;
    }
    if y.dst.extent == 0 {
      y := y.(dst := y.dst.(extent := y.src.extent));
    }
    if y.src.extent == 0 {
      y := y.(src := y.src.(extent := y.dst.extent));
    }
    if y.xfer.extent == 0 {
      y := y.(xfer := y.xfer.(extent := y.dst.extent));
    }
    if y.xfer.extent != y.dst.extent || y.xfer.extent != y.src.extent || y.dst.extent != y.src.extent {
      return false, y;
    }
    assert AgreeOn(x, y.dst.extent);
    return true, y;
  }

  /** Every extent that is given at all is `e`, and one is given. */
  ghost predicate AgreeOn(x: BindParam, e: nat) {
    && e > 0
    && x.xfer.extent in {0, e} && x.dst.extent in {0, e} && x.src.extent in {0, e}
    && (x.xfer.extent == e || x.dst.extent == e || x.src.extent == e)
  }

  /**
   bind_create and vfi_local_bind_create: settle the extents, check both ranges against their
   buffers, and compile.  Offsets come from a 32-bit parser, so offset plus extent cannot wrap.
   */
  method BindCreate(join: bool, dp: nat, dsmb: Smb, sp: nat, ssmb: Smb, param: BindParam) returns (r: Result<seq<Dst>>, desc: BindParam)
    requires BufferReady(dp, dsmb) && BufferReady(sp, ssmb)
    requires param.xfer.Machine() && param.dst.Machine() && param.src.Machine()
    requires param.dst.offset < U32 && param.src.offset < U32
    ensures r.Ok? ==> Bindable(dp, dsmb, sp, ssmb, desc) && AgreeOn(param, desc.dst.extent)
    ensures r.Ok? ==> desc == BindParam(param.xfer.(extent := desc.dst.extent), param.dst.(extent := desc.dst.extent), param.src.(extent := desc.dst.extent))
    ensures r.Ok? ==> Mapped(dsmb.frames, dp, RangeStart(dsmb, desc.dst), desc.dst.extent) && r.value == Compiled(join, dp, dsmb, sp, ssmb, desc)
    ensures r.Err? ==> || (forall e {:trigger AgreeOn(param, e)} :: AgreeOn(param, e) ==>
                             param.dst.offset + e > dsmb.range.extent || param.src.offset + e > ssmb.range.extent)
                       || !Distinct(dsmb.frames) || !Distinct(ssmb.frames)
  {
    var ok;
    ok, desc := ValidExtents(param);
    if !ok {
      return Err(Invalid), desc;
    }
    assert forall e :: AgreeOn(param, e) ==> e == desc.dst.extent;
    if !DescValid(dsmb.range, desc.dst) || !DescValid(ssmb.range, desc.src) {
      return Err(Invalid), desc;
    }
    r := DstsCreate(join, dp, dsmb, sp, ssmb, desc);
  }
}
