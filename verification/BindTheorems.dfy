/**
 The theorems about a bind: executing its chain is a copy through two page tables, the chain is as
 short as any chain can be, and the 32-bit destination field is exact under one checkable condition.
 */
module BindTheorems {
  import opened Division
  import opened Pages
  import opened Runs
  import opened BindCompiler
  import opened Binds
  import opened BindMeaning

  /** The bytes of the destination range, and of the source range, in order. */
  function DstAddrs(dp: nat, dsmb: Smb, desc: BindParam): seq<int>
    requires Mapped(dsmb.frames, dp, RangeStart(dsmb, desc.dst), desc.dst.extent)
  {
    PhysRange(dsmb.frames, dp, RangeStart(dsmb, desc.dst), desc.dst.extent)
  }

  function SrcAddrs(sp: nat, ssmb: Smb, desc: BindParam): seq<int>
    requires Mapped(ssmb.frames, sp, RangeStart(ssmb, desc.src), desc.dst.extent)
  {
    PhysRange(ssmb.frames, sp, RangeStart(ssmb, desc.src), desc.dst.extent)
  }

  function BindChain(join: bool, dp: nat, dsmb: Smb, sp: nat, ssmb: Smb, desc: BindParam): seq<Seg>
    requires desc.dst.extent > 0 && Mapped(dsmb.frames, dp, RangeStart(dsmb, desc.dst), desc.dst.extent)
  {
    Chain(Compiled(join, dp, dsmb, sp, ssmb, desc))
  }

  /** The full-width chain behind a bind's chain, and what it visits. */
  lemma BehindTheChain(join: bool, dp: nat, dsmb: Smb, sp: nat, ssmb: Smb, desc: BindParam) returns (wide: seq<Seg>)
    requires Bindable(dp, dsmb, sp, ssmb, desc)
    ensures Mapped(dsmb.frames, dp, RangeStart(dsmb, desc.dst), desc.dst.extent)
    ensures Mapped(ssmb.frames, sp, RangeStart(ssmb, desc.src), desc.dst.extent)
    ensures BindChain(join, dp, dsmb, sp, ssmb, desc) == Narrowed(wide)
    ensures Flat(Sources(wide)) == SrcAddrs(sp, ssmb, desc) && Flat(Targets(wide)) == DstAddrs(dp, dsmb, desc)
    ensures PositiveSegs(wide) && (join ==> JointlySeparated(wide))
  {
    BindableIsMapped(dp, dsmb, sp, ssmb, desc);
    var dstart, sstart, len := RangeStart(dsmb, desc.dst), RangeStart(ssmb, desc.src), desc.dst.extent;
    var runs := Cuts(join, dsmb.frames, dp, dstart, len);
    CutsVisit(join, dsmb.frames, dp, dstart, len);
    hide PhysRange, Cuts, Quot, NumPages, DescValid;
    FlatLength(runs);
    ChainIsNarrowed(join, sp, ssmb.frames, sstart, runs);
    WideChainVisits(join, sp, ssmb.frames, sstart, runs);
    if join {
      WideChainSeparated(sp, ssmb.frames, sstart, runs);
    }
    wide := WideChain(join, sp, ssmb.frames, sstart, runs);
  }

  /**
   The chain reads exactly the source range, byte by byte.  It writes exactly the destination range
   if and only if every byte that needs a new segment lies below 2^32: the destination address
   travels in a 32-bit extent field.
   */
  lemma ChainVisits(dp: nat, dsmb: Smb, sp: nat, ssmb: Smb, desc: BindParam)
    requires Bindable(dp, dsmb, sp, ssmb, desc)
    ensures Mapped(dsmb.frames, dp, RangeStart(dsmb, desc.dst), desc.dst.extent)
    ensures Mapped(ssmb.frames, sp, RangeStart(ssmb, desc.src), desc.dst.extent)
    ensures var chain := BindChain(true, dp, dsmb, sp, ssmb, desc);
            && Flat(Sources(chain)) == SrcAddrs(sp, ssmb, desc)
            && (Flat(Targets(chain)) == DstAddrs(dp, dsmb, desc) <==> StartsFit(DstAddrs(dp, dsmb, desc), SrcAddrs(sp, ssmb, desc)))
  {
    var wide := BehindTheChain(true, dp, dsmb, sp, ssmb, desc);
    NarrowedExactIffFits(wide);
    FitsIffStartsFit(wide);
  }

  ghost predicate Below4G(a: seq<int>) { forall k :: 0 <= k < |a| ==> 0 <= a[k] < U32 }

  /** Joined or page by page, a destination below 4 GiB is visited exactly. */
  lemma ChainVisitsBelow4G(join: bool, dp: nat, dsmb: Smb, sp: nat, ssmb: Smb, desc: BindParam)
    requires Bindable(dp, dsmb, sp, ssmb, desc)
    requires Mapped(dsmb.frames, dp, RangeStart(dsmb, desc.dst), desc.dst.extent) && Below4G(DstAddrs(dp, dsmb, desc))
    ensures Mapped(ssmb.frames, sp, RangeStart(ssmb, desc.src), desc.dst.extent)
    ensures var chain := BindChain(join, dp, dsmb, sp, ssmb, desc);
            Flat(Sources(chain)) == SrcAddrs(sp, ssmb, desc) && Flat(Targets(chain)) == DstAddrs(dp, dsmb, desc)
  {
    var wide := BehindTheChain(join, dp, dsmb, sp, ssmb, desc);
    hide DstAddrs, SrcAddrs;
    NarrowedExactIffFits(wide);
    SegmentsInside(wide);
  }

  /** Every segment starts at an address of the list it visits. */
  lemma {:induction false} SegmentsInside(segs: seq<Seg>)
    requires PositiveSegs(segs) && Below4G(Flat(Targets(segs)))
    ensures Fits(segs)
  {
    if segs != [] {
      var init, end := segs[..|segs| - 1], segs[|segs| - 1];
      LastSegment(segs);
      var a, b, c := Flat(Targets(init)), Bytes(Run(end.daddr, end.len)), Flat(Targets(segs));
      hide Flat;
      assert Below4G(a) by {
        forall k | 0 <= k < |a| ensures 0 <= a[k] < U32 { assert a[k] == c[k]; }
      }
      SegmentsInside(init);
      assert c[|a|] == b[0] == end.daddr;
      FitsAppend(init, end);
      InitLast(segs);
    }
  }

  // ---- Memory ---------------------------------------------------------------------------------------------

  type Byte = b: int | 0 <= b < 256

  /** A byte of some site's physical memory. */
  datatype Loc = Loc(site: nat, addr: int)

  type Memory = Loc -> Byte

  /** Copying addresses one by one. */
  ghost function CopyBytes(m: Memory, dsite: nat, d: seq<int>, ssite: nat, s: seq<int>): Memory
    requires |d| == |s|
    decreases |d|
  {
    if d == [] then m
    else
      var before := CopyBytes(m, dsite, d[..|d| - 1], ssite, s[..|s| - 1]);
      var to, from := Loc(dsite, d[|d| - 1]), Loc(ssite, s[|s| - 1]);
      (l: Loc) => if l == to then before(from) else before(l)
  }

  /** The DMA engine: each segment in turn, each byte of it in turn. */
  ghost function Execute(m: Memory, dsite: nat, ssite: nat, segs: seq<Seg>): Memory {
    if segs == [] then m
    else
      var end := segs[|segs| - 1];
      CopyBytes(Execute(m, dsite, ssite, segs[..|segs| - 1]), dsite, Bytes(Run(end.daddr, end.len)), ssite, Bytes(Run(end.saddr, end.len)))
  }

  lemma {:induction false} CopyAppend(m: Memory, dsite: nat, d: seq<int>, d': seq<int>, ssite: nat, s: seq<int>, s': seq<int>)
    requires |d| == |s| && |d'| == |s'|
    ensures CopyBytes(m, dsite, d + d', ssite, s + s') == CopyBytes(CopyBytes(m, dsite, d, ssite, s), dsite, d', ssite, s')
    decreases |d'|
  {
    if d' == [] {
      assert d + d' == d && s + s' == s;
    } else {
      CopyAppend(m, dsite, d, d'[..|d'| - 1], ssite, s, s'[..|s'| - 1]);
      assert (d + d')[..|d + d'| - 1] == d + d'[..|d'| - 1];
      assert (s + s')[..|s + s'| - 1] == s + s'[..|s'| - 1];
    }
  }

  lemma {:induction false} ExecuteIsCopy(m: Memory, dsite: nat, ssite: nat, segs: seq<Seg>)
    ensures |Flat(Targets(segs))| == |Flat(Sources(segs))|
    ensures Execute(m, dsite, ssite, segs) == CopyBytes(m, dsite, Flat(Targets(segs)), ssite, Flat(Sources(segs)))
  {
    VisitLengths(segs);
    if segs != [] {
      var init, end := segs[..|segs| - 1], segs[|segs| - 1];
      VisitLengths(init);
      LastSegment(segs);
      ExecuteIsCopy(m, dsite, ssite, init);
      CopyAppend(m, dsite, Flat(Targets(init)), Bytes(Run(end.daddr, end.len)), ssite, Flat(Sources(init)), Bytes(Run(end.saddr, end.len)));
    }
  }

  /** A location written by the copy. */
  predicate Written(dsite: nat, d: seq<int>, l: Loc) { l.site == dsite && l.addr in d }

  /** `m'` is `m` after copying `s` to `d`: every byte arrives, and nothing else changes. */
  ghost predicate IsMemcpy(m: Memory, m': Memory, dsite: nat, d: seq<int>, ssite: nat, s: seq<int>)
    requires |d| == |s|
  {
    && (forall k :: 0 <= k < |d| ==> m'(Loc(dsite, d[k])) == m(Loc(ssite, s[k])))
    && (forall l: Loc :: !Written(dsite, d, l) ==> m'(l) == m(l))
  }

  /** The two ranges share no byte of memory. */
  ghost predicate Apart(dsite: nat, d: seq<int>, ssite: nat, s: seq<int>) {
    forall k :: 0 <= k < |s| ==> !Written(dsite, d, Loc(ssite, s[k]))
  }

  lemma {:induction false} CopyIsMemcpy(m: Memory, dsite: nat, d: seq<int>, ssite: nat, s: seq<int>)
    requires |d| == |s| && Distinct(d) && Apart(dsite, d, ssite, s)
    ensures IsMemcpy(m, CopyBytes(m, dsite, d, ssite, s), dsite, d, ssite, s)
    decreases |d|
  {
    if d != [] {
      var n := |d| - 1;
      var d', s' := d[..n], s[..n];
      forall k | 0 <= k < |s'| ensures !Written(dsite, d', Loc(ssite, s'[k])) {
        assert s'[k] == s[k] && !Written(dsite, d, Loc(ssite, s[k]));
      }
      CopyIsMemcpy(m, dsite, d', ssite, s');
      var before, after := CopyBytes(m, dsite, d', ssite, s'), CopyBytes(m, dsite, d, ssite, s);
      assert !Written(dsite, d', Loc(ssite, s[n])) by { assert !Written(dsite, d, Loc(ssite, s[n])); }
      assert after(Loc(dsite, d[n])) == before(Loc(ssite, s[n])) == m(Loc(ssite, s[n]));
      forall k | 0 <= k < n ensures after(Loc(dsite, d[k])) == m(Loc(ssite, s[k])) {
        assert d[k] == d'[k] && s[k] == s'[k] && d[k] != d[n];
      }
      forall l: Loc | !Written(dsite, d, l) ensures after(l) == m(l) {
        assert !Written(dsite, d', l) && l != Loc(dsite, d[n]);
      }
    }
  }

  /**
   Executing a bind's chain copies exactly `extent` bytes from the source range to the destination
   range through their page tables, and changes no other byte of any memory.
   */
  lemma BindIsMemcpy(m: Memory, dsite: nat, dp: nat, dsmb: Smb, ssite: nat, sp: nat, ssmb: Smb, desc: BindParam)
    requires Bindable(dp, dsmb, sp, ssmb, desc) && Distinct(dsmb.frames)
    requires Mapped(dsmb.frames, dp, RangeStart(dsmb, desc.dst), desc.dst.extent)
    requires Mapped(ssmb.frames, sp, RangeStart(ssmb, desc.src), desc.dst.extent)
    requires Apart(dsite, DstAddrs(dp, dsmb, desc), ssite, SrcAddrs(sp, ssmb, desc))
    requires StartsFit(DstAddrs(dp, dsmb, desc), SrcAddrs(sp, ssmb, desc))
    ensures IsMemcpy(m, Execute(m, dsite, ssite, BindChain(true, dp, dsmb, sp, ssmb, desc)),
                     dsite, DstAddrs(dp, dsmb, desc), ssite, SrcAddrs(sp, ssmb, desc))
  {
    ChainVisits(dp, dsmb, sp, ssmb, desc);
    DistinctFramesDistinctBytes(dsmb.frames, dp, RangeStart(dsmb, desc.dst), desc.dst.extent);
    ExecuteIsCopy(m, dsite, ssite, BindChain(true, dp, dsmb, sp, ssmb, desc));
    CopyIsMemcpy(m, dsite, DstAddrs(dp, dsmb, desc), ssite, SrcAddrs(sp, ssmb, desc));
  }

  // ---- Conditions on page tables ----------------------------------------------------------------------------

  /** Every frame lies below `limit`. */
  ghost predicate LowFrames(frames: seq<nat>, p: nat, limit: int) {
    forall i :: 0 <= i < |frames| ==> Times(frames[i] + 1, p) <= limit
  }

  lemma LowFramesLowBytes(frames: seq<nat>, p: nat, start: nat, len: nat, limit: int)
    requires Mapped(frames, p, start, len) && LowFrames(frames, p, limit)
    ensures forall k :: 0 <= k < len ==> 0 <= PhysRange(frames, p, start, len)[k] < limit
  {
    hide PhysRange, Mapped;
    forall k | 0 <= k < len ensures 0 <= PhysRange(frames, p, start, len)[k] < limit {
      MappedAt(frames, p, start, len, k);
      PhysRangeAt(frames, p, start, len, k);
      PhysBelow(frames, p, start + k, limit);
    }
  }

  lemma PhysBelow(frames: seq<nat>, p: nat, v: nat, limit: int)
    requires p > 0 && Quot(v, p) < |frames| && LowFrames(frames, p, limit)
    ensures 0 <= Phys(frames, p, v) < limit
  {
    TimesNext(frames[Quot(v, p)], p);
    hide Times, Quot, Rem;
  }

  /** The buffers are at different sites, or have no frame in common. */
  ghost predicate DisjointFrames(dsite: nat, dp: nat, d: seq<nat>, ssite: nat, sp: nat, s: seq<nat>) {
    dsite != ssite || (dp == sp && forall i, j :: 0 <= i < |d| && 0 <= j < |s| ==> d[i] != s[j])
  }

  lemma SameAddressSameFrame(d: seq<nat>, s: seq<nat>, p: nat, v: nat, w: nat)
    requires p > 0 && Quot(v, p) < |d| && Quot(w, p) < |s| && Phys(d, p, v) == Phys(s, p, w)
    ensures d[Quot(v, p)] == s[Quot(w, p)]
  {
    hide Times, Quot, Rem;
    var a := Times(d[Quot(v, p)], p) + Rem(v, p);
    SplitUnique(d[Quot(v, p)], Rem(v, p), a, p);
    SplitUnique(s[Quot(w, p)], Rem(w, p), a, p);
  }

  lemma DisjointFramesApart(dsite: nat, dp: nat, d: seq<nat>, dstart: nat, ssite: nat, sp: nat, s: seq<nat>, sstart: nat, len: nat)
    requires Mapped(d, dp, dstart, len) && Mapped(s, sp, sstart, len) && DisjointFrames(dsite, dp, d, ssite, sp, s)
    ensures Apart(dsite, PhysRange(d, dp, dstart, len), ssite, PhysRange(s, sp, sstart, len))
  {
    var to, from := PhysRange(d, dp, dstart, len), PhysRange(s, sp, sstart, len);
    hide PhysRange, Mapped, Phys;
    forall k | 0 <= k < |from| ensures !Written(dsite, to, Loc(ssite, from[k])) {
      if dsite == ssite {
        forall i | 0 <= i < |to| ensures to[i] != from[k] {
          PhysRangeAt(d, dp, dstart, len, i);
          PhysRangeAt(s, sp, sstart, len, k);
          if to[i] == from[k] {
            SameAddressSameFrame(d, s, dp, dstart + i, sstart + k);
            assert false;
          }
        }
      }
    }
  }

  /**
   The same with conditions on the page tables only: destination frames that are distinct and below 4 GiB,
   and source frames that are other frames or elsewhere.
   */
  lemma DisjointBuffersCopy(m: Memory, dsite: nat, dp: nat, dsmb: Smb, ssite: nat, sp: nat, ssmb: Smb, desc: BindParam)
    requires Bindable(dp, dsmb, sp, ssmb, desc) && Distinct(dsmb.frames) && LowFrames(dsmb.frames, dp, U32)
    requires DisjointFrames(dsite, dp, dsmb.frames, ssite, sp, ssmb.frames)
    ensures Mapped(dsmb.frames, dp, RangeStart(dsmb, desc.dst), desc.dst.extent)
    ensures Mapped(ssmb.frames, sp, RangeStart(ssmb, desc.src), desc.dst.extent)
    ensures IsMemcpy(m, Execute(m, dsite, ssite, BindChain(true, dp, dsmb, sp, ssmb, desc)),
                     dsite, DstAddrs(dp, dsmb, desc), ssite, SrcAddrs(sp, ssmb, desc))
  {
    BindableIsMapped(dp, dsmb, sp, ssmb, desc);
    BuffersAreApart(dsite, dp, dsmb, ssite, sp, ssmb, desc);
    hide BindChain, DstAddrs, SrcAddrs, IsMemcpy, Execute, LowFrames, DisjointFrames, Bindable, Mapped;
    BindIsMemcpy(m, dsite, dp, dsmb, ssite, sp, ssmb, desc);
  }

  lemma BuffersAreApart(dsite: nat, dp: nat, dsmb: Smb, ssite: nat, sp: nat, ssmb: Smb, desc: BindParam)
    requires Mapped(dsmb.frames, dp, RangeStart(dsmb, desc.dst), desc.dst.extent) && LowFrames(dsmb.frames, dp, U32)
    requires Mapped(ssmb.frames, sp, RangeStart(ssmb, desc.src), desc.dst.extent)
    requires DisjointFrames(dsite, dp, dsmb.frames, ssite, sp, ssmb.frames)
    ensures Apart(dsite, DstAddrs(dp, dsmb, desc), ssite, SrcAddrs(sp, ssmb, desc))
    ensures StartsFit(DstAddrs(dp, dsmb, desc), SrcAddrs(sp, ssmb, desc))
  {
    LowFramesLowBytes(dsmb.frames, dp, RangeStart(dsmb, desc.dst), desc.dst.extent, U32);
    DisjointFramesApart(dsite, dp, dsmb.frames, RangeStart(dsmb, desc.dst), ssite, sp, ssmb.frames, RangeStart(ssmb, desc.src), desc.dst.extent);
    hide PhysRange, Mapped, LowFrames, DisjointFrames, NeedsSegment, Apart;
  }

  /** Joining adjacent pages changes nothing that the chain does. */
  lemma JoiningKeepsMeaning(m: Memory, dsite: nat, dp: nat, dsmb: Smb, ssite: nat, sp: nat, ssmb: Smb, desc: BindParam)
    requires Bindable(dp, dsmb, sp, ssmb, desc)
    requires Mapped(dsmb.frames, dp, RangeStart(dsmb, desc.dst), desc.dst.extent) && Below4G(DstAddrs(dp, dsmb, desc))
    ensures Execute(m, dsite, ssite, BindChain(true, dp, dsmb, sp, ssmb, desc))
         == Execute(m, dsite, ssite, BindChain(false, dp, dsmb, sp, ssmb, desc))
  {
    ChainVisitsBelow4G(true, dp, dsmb, sp, ssmb, desc);
    ChainVisitsBelow4G(false, dp, dsmb, sp, ssmb, desc);
    ExecuteIsCopy(m, dsite, ssite, BindChain(true, dp, dsmb, sp, ssmb, desc));
    ExecuteIsCopy(m, dsite, ssite, BindChain(false, dp, dsmb, sp, ssmb, desc));
  }

  // ---- Length ---------------------------------------------------------------------------------------------

  /** How many bytes need a new segment. */
  function NeedCount(d: seq<int>, s: seq<int>): nat
    requires |d| == |s|
  {
    if d == [] then 0
    else NeedCount(d[..|d| - 1], s[..|s| - 1]) + if NeedsSegment(d, s, |d| - 1) then 1 else 0
  }

  lemma {:induction false} NeedAppend(d: seq<int>, s: seq<int>, daddr: int, saddr: int, len: nat)
    requires |d| == |s| && len > 0
    ensures NeedCount(d + Bytes(Run(daddr, len)), s + Bytes(Run(saddr, len)))
         == NeedCount(d, s) + if d == [] || d[|d| - 1] + 1 != daddr || s[|s| - 1] + 1 != saddr then 1 else 0
    decreases len
  {
    var d', s' := d + Bytes(Run(daddr, len)), s + Bytes(Run(saddr, len));
    BytesGrow(Run(daddr, len - 1));
    BytesGrow(Run(saddr, len - 1));
    assert d'[..|d'| - 1] == d + Bytes(Run(daddr, len - 1));
    assert s'[..|s'| - 1] == s + Bytes(Run(saddr, len - 1));
    if len == 1 {
      assert d'[..|d'| - 1] == d && s'[..|s'| - 1] == s;
    } else {
      NeedAppend(d, s, daddr, saddr, len - 1);
    }
  }

  /** Any chain has a segment for every byte that needs one; a separated chain has no others. */
  lemma {:induction false} SegmentsAtLeast(segs: seq<Seg>)
    ensures |Flat(Targets(segs))| == |Flat(Sources(segs))|
    ensures NeedCount(Flat(Targets(segs)), Flat(Sources(segs))) <= |segs|
    ensures PositiveSegs(segs) && JointlySeparated(segs) ==> NeedCount(Flat(Targets(segs)), Flat(Sources(segs))) == |segs|
  {
    VisitLengths(segs);
    if segs != [] {
      var init, end := segs[..|segs| - 1], segs[|segs| - 1];
      VisitLengths(init);
      SegmentsAtLeast(init);
      LastSegment(segs);
      hide Flat, Total;
      if end.len == 0 {
        assert Flat(Targets(segs)) == Flat(Targets(init)) && Flat(Sources(segs)) == Flat(Sources(init));
        assert !PositiveSegs(segs);
      } else {
        NeedAppend(Flat(Targets(init)), Flat(Sources(init)), end.daddr, end.saddr, end.len);
        if PositiveSegs(segs) && JointlySeparated(segs) && init != [] {
          LastByte(init);
          assert segs[|segs| - 2] == init[|init| - 1];
        }
      }
    }
  }

  /** No chain that visits the same bytes in the same order has fewer segments than the joined one. */
  lemma ChainIsShortest(dp: nat, dsmb: Smb, sp: nat, ssmb: Smb, desc: BindParam, other: seq<Seg>)
    requires Bindable(dp, dsmb, sp, ssmb, desc)
    requires Mapped(dsmb.frames, dp, RangeStart(dsmb, desc.dst), desc.dst.extent)
    requires Mapped(ssmb.frames, sp, RangeStart(ssmb, desc.src), desc.dst.extent)
    requires Flat(Targets(other)) == DstAddrs(dp, dsmb, desc) && Flat(Sources(other)) == SrcAddrs(sp, ssmb, desc)
    ensures |BindChain(true, dp, dsmb, sp, ssmb, desc)| == NeedCount(DstAddrs(dp, dsmb, desc), SrcAddrs(sp, ssmb, desc)) <= |other|
  {
    var wide := BehindTheChain(true, dp, dsmb, sp, ssmb, desc);
    SegmentsAtLeast(wide);
    SegmentsAtLeast(other);
  }

  /** An address list breaks only at a page boundary, and there exactly when the frames do not follow. */
  lemma BreaksAtJumpingFrames(frames: seq<nat>, p: nat, start: nat, len: nat, k: nat)
    requires Mapped(frames, p, start, len) && 0 < k < len
    ensures var v, a := start + k, PhysRange(frames, p, start, len);
            && Quot(v, p) < |frames|
            && (a[k] != a[k - 1] + 1 <==>
                Rem(v, p) == 0 && frames[Quot(v, p)] != frames[Quot(v, p) - 1] + 1)
  {
    var v := start + k;
    PhysRangeAt(frames, p, start, len, k);
    PhysRangeAt(frames, p, start, len, k - 1);
    Split(v, p);
    var page, r := Quot(v, p), Rem(v, p);
    if r > 0 {
      SplitUnique(page, r - 1, v - 1, p);
    } else {
      assert page > 0;
      TimesNext(page - 1, p);
      SplitUnique(page - 1, p - 1, v - 1, p);
      TimesNext(frames[page - 1], p);
      if Times(frames[page], p) == Times(frames[page - 1] + 1, p) {
        TimesInjective(frames[page], frames[page - 1] + 1, p);
      }
    }
  }

  // ---- Names ------------------------------------------------------------------------------------------------

  /** With distinct frames no two fragments of a bind share a name: the destinations' addresses differ. */
  lemma FragmentNamesDiffer(join: bool, dp: nat, dsmb: Smb, sp: nat, ssmb: Smb, desc: BindParam)
    requires Bindable(dp, dsmb, sp, ssmb, desc) && Distinct(dsmb.frames)
    ensures Mapped(dsmb.frames, dp, RangeStart(dsmb, desc.dst), desc.dst.extent)
    ensures var dsts := Compiled(join, dp, dsmb, sp, ssmb, desc);
            && (forall i {:trigger dsts[i]} :: 0 <= i < |dsts| ==> dsts[i].len > 0)
            && (forall i, j {:trigger dsts[i], dsts[j]} :: 0 <= i < j < |dsts| ==> dsts[i].addr != dsts[j].addr)
  {
    BindableIsMapped(dp, dsmb, sp, ssmb, desc);
    var runs := Cuts(join, dsmb.frames, dp, RangeStart(dsmb, desc.dst), desc.dst.extent);
    CutsVisit(join, dsmb.frames, dp, RangeStart(dsmb, desc.dst), desc.dst.extent);
    DistinctFramesDistinctBytes(dsmb.frames, dp, RangeStart(dsmb, desc.dst), desc.dst.extent);
    hide Cuts, PhysRange, NumPages, DescValid;
    DistinctStarts(runs);
    DstsOfAt(join, sp, ssmb.frames, RangeStart(ssmb, desc.src), runs);
  }
}
