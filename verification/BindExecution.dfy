/**
 From bind_create to memory: compile, load, start the engine, and the bytes are copied.
 */
module BindExecution {
  import opened Results
  import opened Division
  import opened Pages
  import opened Runs
  import opened BindCompiler
  import opened Binds
  import opened BindMeaning
  import opened BindTheorems
  import opened DmaChain

  /** No fragment is without segments: the splice always finds a first descriptor. */
  lemma {:induction false} FragmentsHaveSegments(join: bool, sp: nat, sframes: seq<nat>, sstart: nat, runs: seq<Run>)
    requires Positive(runs) && Mapped(sframes, sp, sstart, Total(runs))
    ensures var ds := DstsOf(join, sp, sframes, sstart, runs);
            |ds| == |runs| && forall i {:trigger ds[i]} :: 0 <= i < |ds| ==> ds[i].srcs != []
  {
    hide Quot, Flat, PhysRange, Total, Mapped, DstOf;
    if runs != [] {
      var init, end := runs[..|runs| - 1], runs[|runs| - 1];
      assert end.len > 0 && Positive(init);
      FlatLast(runs);
      MappedPart(sframes, sp, sstart, Total(runs), 0, Total(init));
      MappedPart(sframes, sp, sstart, Total(runs), Total(init), end.len);
      FragmentsHaveSegments(join, sp, sframes, sstart, init);
      DstHasSegments(join, sp, sframes, sstart + Total(init), end);
    }
  }

  lemma DstHasSegments(join: bool, sp: nat, sframes: seq<nat>, start: nat, r: Run)
    requires r.len > 0 && Mapped(sframes, sp, start, r.len)
    ensures DstOf(join, sp, sframes, start, r).srcs != []
  {
    CutsVisit(join, sframes, sp, start, r.len);
    SrcsOfAt(Cuts(join, sframes, sp, start, r.len), r.addr);
  }

  lemma {:induction false} FirstSegmentExists(dsts: seq<Dst>)
    requires dsts != [] && forall i :: 0 <= i < |dsts| ==> dsts[i].srcs != []
    ensures Chain(dsts) != []
  {
    ChainAppend(dsts[..|dsts| - 1], dsts[|dsts| - 1]);
    InitLast(dsts);
  }

  lemma CompiledHasSegments(join: bool, dp: nat, dsmb: Smb, sp: nat, ssmb: Smb, desc: BindParam)
    requires Bindable(dp, dsmb, sp, ssmb, desc)
    ensures Mapped(dsmb.frames, dp, RangeStart(dsmb, desc.dst), desc.dst.extent)
    ensures var dsts := Compiled(join, dp, dsmb, sp, ssmb, desc);
            Chain(dsts) != [] && forall i :: 0 <= i < |dsts| ==> dsts[i].srcs != []
  {
    BindableIsMapped(dp, dsmb, sp, ssmb, desc);
    var runs := Cuts(join, dsmb.frames, dp, RangeStart(dsmb, desc.dst), desc.dst.extent);
    CutsVisit(join, dsmb.frames, dp, RangeStart(dsmb, desc.dst), desc.dst.extent);
    FlatLength(runs);
    assert runs != [];
    hide Cuts, PhysRange, NumPages, DescValid, Flat, Quot;
    FragmentsHaveSegments(join, sp, ssmb.frames, RangeStart(ssmb, desc.src), runs);
    FirstSegmentExists(Compiled(join, dp, dsmb, sp, ssmb, desc));
  }

  /** A chain whose source bytes are addressable has segments that fit the descriptors. */
  lemma {:induction false} SourcesFit(segs: seq<Seg>, limit: int)
    requires PositiveSegs(segs)
    requires forall k :: 0 <= k < |Flat(Sources(segs))| ==> 0 <= Flat(Sources(segs))[k] < limit
    ensures forall i {:trigger segs[i]} :: 0 <= i < |segs| ==> 0 <= segs[i].saddr < limit
  {
    if segs != [] {
      var init, end := segs[..|segs| - 1], segs[|segs| - 1];
      LastSegment(segs);
      var a, b, c := Flat(Sources(init)), Bytes(Run(end.saddr, end.len)), Flat(Sources(segs));
      hide Flat;
      forall k | 0 <= k < |a| ensures 0 <= a[k] < limit { assert a[k] == c[k]; }
      assert c[|a|] == b[0] == end.saddr;
      SourcesFit(init, limit);
    }
  }

  ghost predicate Addressable(a: seq<int>, local: bool) { forall k :: 0 <= k < |a| ==> 0 <= a[k] < AddressLimit(local) }

  lemma BindFieldsFit(local: bool, dp: nat, dsmb: Smb, sp: nat, ssmb: Smb, desc: BindParam)
    requires Bindable(dp, dsmb, sp, ssmb, desc)
    requires Mapped(dsmb.frames, dp, RangeStart(dsmb, desc.dst), desc.dst.extent)
    requires Mapped(ssmb.frames, sp, RangeStart(ssmb, desc.src), desc.dst.extent)
    requires Addressable(SrcAddrs(sp, ssmb, desc), local)
    ensures FieldsFit(BindChain(true, dp, dsmb, sp, ssmb, desc), local)
  {
    var wide := BehindTheChain(true, dp, dsmb, sp, ssmb, desc);
    SourcesFit(wide, AddressLimit(local));
  }

  /**
   The engine, started at the link of a loaded bind, copies exactly the bind's bytes and then stops.
   Descriptors lie at their own 32-byte aligned addresses; the ranges are apart; source addresses fit
   the controller's 36 or 34 bits, and destination segment starts fit 32.
   */
  lemma StartedBindCopies(mem: map<int, Hw>, items: seq<SegDesc>, addrs: seq<int>, local: bool, m: Memory,
                          dsite: nat, dp: nat, dsmb: Smb, ssite: nat, sp: nat, ssmb: Smb, desc: BindParam)
    requires Bindable(dp, dsmb, sp, ssmb, desc) && Distinct(dsmb.frames)
    requires Mapped(dsmb.frames, dp, RangeStart(dsmb, desc.dst), desc.dst.extent)
    requires Mapped(ssmb.frames, sp, RangeStart(ssmb, desc.src), desc.dst.extent)
    requires Loaded(items, BindChain(true, dp, dsmb, sp, ssmb, desc), local, addrs) && Resident(mem, items)
    requires Apart(dsite, DstAddrs(dp, dsmb, desc), ssite, SrcAddrs(sp, ssmb, desc))
    requires StartsFit(DstAddrs(dp, dsmb, desc), SrcAddrs(sp, ssmb, desc))
    requires Addressable(SrcAddrs(sp, ssmb, desc), local)
    ensures addrs != [] && Walks(mem, addrs[0], Images(items))
    ensures IsMemcpy(m, Execute(m, dsite, ssite, SegsOf(Images(items))), dsite, DstAddrs(dp, dsmb, desc), ssite, SrcAddrs(sp, ssmb, desc))
  {
    CompiledHasSegments(true, dp, dsmb, sp, ssmb, desc);
    BindFieldsFit(local, dp, dsmb, sp, ssmb, desc);
    EngineRunsChain(mem, items, BindChain(true, dp, dsmb, sp, ssmb, desc), local, addrs);
    BindIsMemcpy(m, dsite, dp, dsmb, ssite, sp, ssmb, desc);
  }

  // ---- From bind_create to memory ---------------------------------------------------------------------------

  /** The engine started at `link` stops, having copied the bind's source range to its destination range and nothing else. */
  ghost predicate StartCopies(mem: map<int, Hw>, link: int, m: Memory, dsite: nat, dp: nat, dsmb: Smb,
                              ssite: nat, sp: nat, ssmb: Smb, desc: BindParam)
  {
    && Mapped(dsmb.frames, dp, RangeStart(dsmb, desc.dst), desc.dst.extent)
    && Mapped(ssmb.frames, sp, RangeStart(ssmb, desc.src), desc.dst.extent)
    && exists v :: Walks(mem, link, v)
         && IsMemcpy(m, Execute(m, dsite, ssite, SegsOf(v)), dsite, DstAddrs(dp, dsmb, desc), ssite, SrcAddrs(sp, ssmb, desc))
  }

  /** Page tables for which a bind is exact: the caller can see all this before creating it. */
  ghost predicate GoodBuffers(local: bool, dsite: nat, dp: nat, dsmb: Smb, ssite: nat, sp: nat, ssmb: Smb) {
    && Distinct(dsmb.frames) && LowFrames(dsmb.frames, dp, U32) && LowFrames(ssmb.frames, sp, AddressLimit(local))
    && DisjointFrames(dsite, dp, dsmb.frames, ssite, sp, ssmb.frames)
  }

  lemma LoadedBindCopies(mem: map<int, Hw>, items: seq<SegDesc>, addrs: seq<int>, local: bool, m: Memory,
                         dsite: nat, dp: nat, dsmb: Smb, ssite: nat, sp: nat, ssmb: Smb, desc: BindParam)
    requires Bindable(dp, dsmb, sp, ssmb, desc) && GoodBuffers(local, dsite, dp, dsmb, ssite, sp, ssmb)
    requires Mapped(dsmb.frames, dp, RangeStart(dsmb, desc.dst), desc.dst.extent)
    requires Loaded(items, BindChain(true, dp, dsmb, sp, ssmb, desc), local, addrs) && Resident(mem, items)
    ensures addrs != [] && StartCopies(mem, addrs[0], m, dsite, dp, dsmb, ssite, sp, ssmb, desc)
  {
    BindableIsMapped(dp, dsmb, sp, ssmb, desc);
    BuffersAreApart(dsite, dp, dsmb, ssite, sp, ssmb, desc);
    LowFramesLowBytes(ssmb.frames, sp, RangeStart(ssmb, desc.src), desc.dst.extent, AddressLimit(local));
    assert Addressable(SrcAddrs(sp, ssmb, desc), local);
    hide Bindable, BindChain, DstAddrs, SrcAddrs, IsMemcpy, Execute, LowFrames, DisjointFrames, Mapped, Loaded, Resident, Walks;
    StartedBindCopies(mem, items, addrs, local, m, dsite, dp, dsmb, ssite, sp, ssmb, desc);
  }

  /**
   The whole path: create a bind, load and link its descriptors at the places given, and hand out the link.
   Starting the engine there is the copy that was asked for.
   */
  method CreateAndLoad(dp: nat, dsmb: Smb, sp: nat, ssmb: Smb, param: BindParam, local: bool, place: nat -> int)
    returns (r: Result<(int, DmaList)>, desc: BindParam)
    requires BufferReady(dp, dsmb) && BufferReady(sp, ssmb)
    requires param.xfer.Machine() && param.dst.Machine() && param.src.Machine()
    requires param.dst.offset < U32 && param.src.offset < U32
    ensures r.Ok? ==> AgreeOn(param, desc.dst.extent)
                      && desc == BindParam(param.xfer.(extent := desc.dst.extent), param.dst.(extent := desc.dst.extent), param.src.(extent := desc.dst.extent))
    ensures r.Err? ==> || (forall e {:trigger AgreeOn(param, e)} :: AgreeOn(param, e) ==>
                             param.dst.offset + e > dsmb.range.extent || param.src.offset + e > ssmb.range.extent)
                       || !Distinct(dsmb.frames) || !Distinct(ssmb.frames)
    ensures r.Ok? ==>
      var (link, chain) := r.value;
      forall mem: map<int, Hw>, m: Memory, dsite: nat, ssite: nat ::
        Resident(mem, chain.items) && GoodBuffers(local, dsite, dp, dsmb, ssite, sp, ssmb) ==>
          StartCopies(mem, link, m, dsite, dp, dsmb, ssite, sp, ssmb, desc)
  {
    hide Bindable, Compiled, Mapped, Loaded, Resident, GoodBuffers, StartCopies, BufferReady;
    var dsts;
    dsts, desc := BindCreate(true, dp, dsmb, sp, ssmb, param);
    if dsts.Err? {
      return Err(dsts.error), desc;
    }
    CompiledHasSegments(true, dp, dsmb, sp, ssmb, desc);
    ghost var n := |Chain(dsts.value)|;
    var count := SegmentCount(dsts.value);
    var addrs := seq(count, (k: int) requires 0 <= k < count => place(k));
    var link, chain := LoadBind(dsts.value, local, addrs);
    forall mem: map<int, Hw>, m: Memory, dsite: nat, ssite: nat
      | Resident(mem, chain.items) && GoodBuffers(local, dsite, dp, dsmb, ssite, sp, ssmb)
      ensures StartCopies(mem, link, m, dsite, dp, dsmb, ssite, sp, ssmb, desc)
    {
      LoadedBindCopies(mem, chain.items, addrs, local, m, dsite, dp, dsmb, ssite, sp, ssmb, desc);
    }
    r := Ok((link, chain));
  }

  method SegmentCount(dsts: seq<Dst>) returns (n: nat)
    ensures n == |Chain(dsts)|
  {
    n := 0;
    var i := 0;
    while i < |dsts|
      invariant 0 <= i <= |dsts| && n == |Chain(dsts[..i])|
    {
      ChainLength(dsts, i);
      n := n + |dsts[i].srcs|;
      i := i + 1;
    }
    assert dsts[..|dsts|] == dsts;
  }

  /** Buffers of two pages each for which all this holds: a destination just below 4 GiB, a source just below 64 or 16 GiB. */
  lemma SomeBuffersAreGood(local: bool)
    ensures var d, s := Smb(Range(0, 8192), [5, 0xF_FFFF]), Smb(Range(0, 8192), [20, if local then 0xFF_FFFF else 0x3F_FFFF]);
            && Bindable(4096, d, 4096, s, BindParam(Range(0, 8192), Range(0, 8192), Range(0, 8192)))
            && GoodBuffers(local, 0, 4096, d, 0, 4096, s)
  {
    assert NumPages(4096, 8192, 0) == 2;
  }
}
