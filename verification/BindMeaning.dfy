/**
 What a compiled bind means: the addresses its segments visit, and the memory they leave behind.
 */
module BindMeaning {
  import opened Division
  import opened Pages
  import opened Runs
  import opened BindCompiler
  import opened Binds

  // ---- The chain and what it visits ---------------------------------------------------------------------

  /** All segments of all fragments, in order. */
  function Chain(dsts: seq<Dst>): seq<Seg> {
    if dsts == [] then [] else Chain(dsts[..|dsts| - 1]) + dsts[|dsts| - 1].srcs
  }

  function Sources(segs: seq<Seg>): seq<Run> { seq(|segs|, i requires 0 <= i < |segs| => Run(segs[i].saddr, segs[i].len)) }

  function Targets(segs: seq<Seg>): seq<Run> { seq(|segs|, i requires 0 <= i < |segs| => Run(segs[i].daddr, segs[i].len)) }

  lemma {:induction false} FlatConcat(a: seq<Run>, b: seq<Run>)
    ensures Flat(a + b) == Flat(a) + Flat(b) && Total(a + b) == Total(a) + Total(b)
  {
    if b == [] {
      assert a + b == a;
    } else {
      var init, end := b[..|b| - 1], b[|b| - 1];
      FlatConcat(a, init);
      assert a + b == (a + init) + [end];
      FlatAppend(a + init, end);
      FlatAppend(init, end);
      InitLast(b);
      Regroup(Flat(a), Flat(init), Bytes(end));
    }
  }

  // ---- The same chain with addresses of full width ----------------------------------------------------------

  function WideSrcs(runs: seq<Run>, daddr: int): seq<Seg> {
    if runs == [] then []
    else
      var init, end := runs[..|runs| - 1], runs[|runs| - 1];
      WideSrcs(init, daddr) + [Seg(end.addr, daddr + Total(init), end.len)]
  }

  function Narrowed(segs: seq<Seg>): seq<Seg> {
    seq(|segs|, i requires 0 <= i < |segs| => segs[i].(daddr := Trunc32(segs[i].daddr)))
  }

  lemma {:induction false} SrcsAreNarrowed(runs: seq<Run>, daddr: int)
    ensures SrcsOf(runs, daddr) == Narrowed(WideSrcs(runs, daddr))
    ensures |WideSrcs(runs, daddr)| == |runs|
  {
    if runs != [] {
      SrcsAreNarrowed(runs[..|runs| - 1], daddr);
    }
  }

  /** The segments of one fragment visit its source runs, and tile its destination run. */
  lemma {:induction false} WideSrcsVisit(runs: seq<Run>, daddr: int)
    ensures Sources(WideSrcs(runs, daddr)) == runs
    ensures Flat(Targets(WideSrcs(runs, daddr))) == Bytes(Run(daddr, Total(runs)))
  {
    if runs != [] {
      var init, end := runs[..|runs| - 1], runs[|runs| - 1];
      WideSrcsVisit(init, daddr);
      var segs := WideSrcs(init, daddr);
      assert Targets(segs + [Seg(end.addr, daddr + Total(init), end.len)]) == Targets(segs) + [Run(daddr + Total(init), end.len)];
      FlatAppend(Targets(segs), Run(daddr + Total(init), end.len));
      BytesJoin(Run(daddr, Total(init)), Run(daddr + Total(init), end.len));
      InitLast(runs);
    }
  }

  function WideChain(join: bool, sp: nat, sframes: seq<nat>, sstart: nat, runs: seq<Run>): seq<Seg> {
    if runs == [] then []
    else
      var init, end := runs[..|runs| - 1], runs[|runs| - 1];
      WideChain(join, sp, sframes, sstart, init) + WideDst(join, sp, sframes, sstart + Total(init), end)
  }

  function WideDst(join: bool, sp: nat, sframes: seq<nat>, start: nat, r: Run): seq<Seg> {
    if r.len > 0 && Mapped(sframes, sp, start, r.len) then WideSrcs(Cuts(join, sframes, sp, start, r.len), r.addr) else []
  }

  lemma ChainAppend(dsts: seq<Dst>, d: Dst)
    ensures Chain(dsts + [d]) == Chain(dsts) + d.srcs
  {
    assert (dsts + [d])[..|dsts|] == dsts;
  }

  lemma NarrowedConcat(a: seq<Seg>, b: seq<Seg>)
    ensures Narrowed(a + b) == Narrowed(a) + Narrowed(b)
  {
  }

  lemma DstIsNarrowed(join: bool, sp: nat, sframes: seq<nat>, start: nat, r: Run)
    ensures DstOf(join, sp, sframes, start, r).srcs == Narrowed(WideDst(join, sp, sframes, start, r))
  {
    if r.len > 0 && Mapped(sframes, sp, start, r.len) {
      SrcsAreNarrowed(Cuts(join, sframes, sp, start, r.len), r.addr);
    }
  }

  lemma {:induction false} ChainIsNarrowed(join: bool, sp: nat, sframes: seq<nat>, sstart: nat, runs: seq<Run>)
    ensures Chain(DstsOf(join, sp, sframes, sstart, runs)) == Narrowed(WideChain(join, sp, sframes, sstart, runs))
  {
    hide DstOf, WideDst, Total;
    if runs != [] {
      var init, end := runs[..|runs| - 1], runs[|runs| - 1];
      var start := sstart + Total(init);
      ChainIsNarrowed(join, sp, sframes, sstart, init);
      DstIsNarrowed(join, sp, sframes, start, end);
      ChainAppend(DstsOf(join, sp, sframes, sstart, init), DstOf(join, sp, sframes, start, end));
      NarrowedConcat(WideChain(join, sp, sframes, sstart, init), WideDst(join, sp, sframes, start, end));
    }
  }

  // ---- Both address lists are the page tables' --------------------------------------------------------------

  /** Page by page, the cut visits the range. */
  lemma {:induction false} PagePrefix(frames: seq<nat>, p: nat, start: nat, len: nat, n: nat)
    requires Mapped(frames, p, start, len) && len > 0 && n <= |PageRuns(frames, p, start, len)|
    ensures CutUpTo(false, frames, p, start, len, Quot(start, p) + n, PageRuns(frames, p, start, len)[..n])
  {
    var rs := PageRuns(frames, p, start, len);
    hide CutUpTo, Mapped, Quot, Flat, PhysRange;
    if n == 0 {
      CutStarts(false, frames, p, start, len);
    } else {
      PagePrefix(frames, p, start, len, n - 1);
      var page := Quot(start, p) + n - 1;
      assert rs[n - 1] == PageRun(frames, p, start, len, page);
      SpansOnePage(frames, p, start, len, page);
      CutEmits(false, frames, p, start, len, page, page, rs[..n - 1], rs[n - 1]);
      assert rs[..n] == rs[..n - 1] + [rs[n - 1]];
    }
  }

  /** Joined or not, the cut of a range visits exactly the bytes the page table gives it. */
  lemma CutsVisit(join: bool, frames: seq<nat>, p: nat, start: nat, len: nat)
    requires Mapped(frames, p, start, len) && len > 0
    ensures Flat(Cuts(join, frames, p, start, len)) == PhysRange(frames, p, start, len)
    ensures Positive(Cuts(join, frames, p, start, len))
    ensures join ==> Separated(Cuts(join, frames, p, start, len))
  {
    if join {
      MaxRunsFlat(PhysRange(frames, p, start, len));
    } else {
      var rs := PageRuns(frames, p, start, len);
      PagePrefix(frames, p, start, len, |rs|);
      assert rs[..|rs|] == rs;
      hide PageRuns;
      CutDone(false, frames, p, start, len, rs);
    }
  }

  ghost predicate PositiveSegs(segs: seq<Seg>) { forall i :: 0 <= i < |segs| ==> segs[i].len > 0 }

  lemma SourcesConcat(a: seq<Seg>, b: seq<Seg>)
    ensures Sources(a + b) == Sources(a) + Sources(b) && Targets(a + b) == Targets(a) + Targets(b)
  {
  }

  lemma VisitsConcat(a: seq<Seg>, b: seq<Seg>)
    ensures Flat(Sources(a + b)) == Flat(Sources(a)) + Flat(Sources(b))
    ensures Flat(Targets(a + b)) == Flat(Targets(a)) + Flat(Targets(b))
    ensures PositiveSegs(a) && PositiveSegs(b) ==> PositiveSegs(a + b)
  {
    SourcesConcat(a, b);
    FlatConcat(Sources(a), Sources(b));
    FlatConcat(Targets(a), Targets(b));
  }

  lemma FlatLast(rs: seq<Run>)
    requires rs != []
    ensures Flat(rs) == Flat(rs[..|rs| - 1]) + Bytes(rs[|rs| - 1]) && Total(rs) == Total(rs[..|rs| - 1]) + rs[|rs| - 1].len
  {
  }

  lemma WideDstVisits(join: bool, sp: nat, sframes: seq<nat>, start: nat, r: Run)
    requires r.len > 0 && Mapped(sframes, sp, start, r.len)
    ensures var segs := WideDst(join, sp, sframes, start, r);
            && Sources(segs) == Cuts(join, sframes, sp, start, r.len)
            && Flat(Sources(segs)) == PhysRange(sframes, sp, start, r.len)
            && Flat(Targets(segs)) == Bytes(r)
            && PositiveSegs(segs)
  {
    var cuts := Cuts(join, sframes, sp, start, r.len);
    CutsVisit(join, sframes, sp, start, r.len);
    hide Cuts, PhysRange;
    WideSrcsVisit(cuts, r.addr);
    FlatLength(cuts);
    var segs := WideSrcs(cuts, r.addr);
    forall i | 0 <= i < |segs| ensures segs[i].len > 0 {
      assert Sources(segs)[i] == cuts[i];
    }
  }

  lemma {:induction false} WideChainVisits(join: bool, sp: nat, sframes: seq<nat>, sstart: nat, runs: seq<Run>)
    requires Positive(runs) && Mapped(sframes, sp, sstart, Total(runs))
    ensures var segs := WideChain(join, sp, sframes, sstart, runs);
            && Flat(Sources(segs)) == PhysRange(sframes, sp, sstart, Total(runs))
            && Flat(Targets(segs)) == Flat(runs)
            && PositiveSegs(segs)
  {
    hide PhysRange, WideDst, Quot, Total, Flat, Sources, Targets, Bytes;
    if runs != [] {
      var init, end := runs[..|runs| - 1], runs[|runs| - 1];
      assert end.len > 0;
      FlatLast(runs);
      PhysRangeSplit(sframes, sp, sstart, Total(runs), Total(init));
      WideChainVisits(join, sp, sframes, sstart, init);
      WideDstVisits(join, sp, sframes, sstart + Total(init), end);
      VisitsConcat(WideChain(join, sp, sframes, sstart, init), WideDst(join, sp, sframes, sstart + Total(init), end));
    } else {
      NothingVisited(sframes, sp, sstart);
    }
  }

  lemma NothingVisited(frames: seq<nat>, p: nat, start: nat)
    requires p > 0
    ensures PhysRange(frames, p, start, 0) == [] && Total([]) == 0
    ensures Flat([]) == [] && Flat(Sources([])) == [] && Flat(Targets([])) == []
  {
  }

  // ---- When the 32-bit destination address is exact ----------------------------------------------------------

  /** A new segment is needed at byte `k`: one of the two address lists does not simply go on. */
  predicate NeedsSegment(d: seq<int>, s: seq<int>, k: nat)
    requires k < |d| == |s|
  {
    k == 0 || d[k] != d[k - 1] + 1 || s[k] != s[k - 1] + 1
  }

  /** No segment continues both the source and the destination of the one before it. */
  ghost predicate JointlySeparated(segs: seq<Seg>) {
    forall i, j {:trigger segs[i], segs[j]} :: 0 <= i && j == i + 1 && j < |segs| ==>
      segs[i].daddr + segs[i].len != segs[j].daddr || segs[i].saddr + segs[i].len != segs[j].saddr
  }

  ghost predicate Fits(segs: seq<Seg>) { forall i :: 0 <= i < |segs| ==> 0 <= segs[i].daddr < U32 }

  ghost predicate StartsFit(d: seq<int>, s: seq<int>)
    requires |d| == |s|
  {
    forall k :: 0 <= k < |d| && NeedsSegment(d, s, k) ==> 0 <= d[k] < U32
  }

  lemma VisitLengths(segs: seq<Seg>)
    ensures |Flat(Targets(segs))| == |Flat(Sources(segs))| == Total(Targets(segs)) == Total(Sources(segs))
  {
    FlatLength(Targets(segs));
    FlatLength(Sources(segs));
    SameTotals(segs);
  }

  lemma {:induction false} SameTotals(segs: seq<Seg>)
    ensures Total(Targets(segs)) == Total(Sources(segs))
  {
    if segs != [] {
      SameTotals(segs[..|segs| - 1]);
      assert Targets(segs)[..|segs| - 1] == Targets(segs[..|segs| - 1]);
      assert Sources(segs)[..|segs| - 1] == Sources(segs[..|segs| - 1]);
    }
  }

  /** A last segment adds its own bytes to both lists. */
  lemma LastSegment(segs: seq<Seg>)
    requires segs != []
    ensures var init, end := segs[..|segs| - 1], segs[|segs| - 1];
            && Flat(Targets(segs)) == Flat(Targets(init)) + Bytes(Run(end.daddr, end.len))
            && Flat(Sources(segs)) == Flat(Sources(init)) + Bytes(Run(end.saddr, end.len))
  {
    assert Targets(segs)[..|segs| - 1] == Targets(segs[..|segs| - 1]);
    assert Sources(segs)[..|segs| - 1] == Sources(segs[..|segs| - 1]);
  }

  /** Where a segment list of positive segments ends. */
  lemma LastByte(segs: seq<Seg>)
    requires segs != [] && PositiveSegs(segs)
    ensures var d, s, end := Flat(Targets(segs)), Flat(Sources(segs)), segs[|segs| - 1];
            && |d| == |s| > 0 && d[|d| - 1] == end.daddr + end.len - 1 && s[|s| - 1] == end.saddr + end.len - 1
  {
    LastSegment(segs);
    VisitLengths(segs);
    VisitLengths(segs[..|segs| - 1]);
    hide Flat, Total;
    var end := segs[|segs| - 1];
    assert Bytes(Run(end.daddr, end.len))[end.len - 1] == end.daddr + end.len - 1;
    assert Bytes(Run(end.saddr, end.len))[end.len - 1] == end.saddr + end.len - 1;
  }

  /** Segments that are separated start exactly where the address lists need one. */
  lemma {:induction false} FitsIffStartsFit(segs: seq<Seg>)
    requires PositiveSegs(segs) && JointlySeparated(segs)
    ensures |Flat(Targets(segs))| == |Flat(Sources(segs))|
    ensures Fits(segs) <==> StartsFit(Flat(Targets(segs)), Flat(Sources(segs)))
  {
    VisitLengths(segs);
    if segs != [] {
      var init, end := segs[..|segs| - 1], segs[|segs| - 1];
      FitsIffStartsFit(init);
      LastSegment(segs);
      if init != [] {
        LastByte(init);
        assert init[|init| - 1] == segs[|segs| - 2];
      }
      AddOneStart(Flat(Targets(init)), Flat(Sources(init)), end);
      FitsAppend(init, end);
      InitLast(segs);
    }
  }

  lemma FitsAppend(init: seq<Seg>, end: Seg)
    ensures Fits(init + [end]) <==> Fits(init) && 0 <= end.daddr < U32
  {
    if Fits(init + [end]) {
      assert (init + [end])[|init|] == end;
      forall i | 0 <= i < |init| ensures 0 <= init[i].daddr < U32 {
        assert (init + [end])[i] == init[i];
      }
    }
  }

  lemma AddOneStart(d: seq<int>, s: seq<int>, end: Seg)
    requires |d| == |s| && end.len > 0
    requires d != [] ==> d[|d| - 1] + 1 != end.daddr || s[|s| - 1] + 1 != end.saddr
    ensures StartsFit(d + Bytes(Run(end.daddr, end.len)), s + Bytes(Run(end.saddr, end.len)))
       <==> StartsFit(d, s) && 0 <= end.daddr < U32
  {
    var d', s' := d + Bytes(Run(end.daddr, end.len)), s + Bytes(Run(end.saddr, end.len));
    assert NeedsSegment(d', s', |d|) && d'[|d|] == end.daddr;
    forall k | 0 <= k < |d| ensures NeedsSegment(d', s', k) == NeedsSegment(d, s, k) {
    }
    forall k | |d| < k < |d'| ensures !NeedsSegment(d', s', k) {
      assert d'[k] == end.daddr + (k - |d|) && d'[k - 1] == end.daddr + (k - 1 - |d|);
      assert s'[k] == end.saddr + (k - |d|) && s'[k - 1] == end.saddr + (k - 1 - |d|);
    }
    if StartsFit(d', s') {
      forall k | 0 <= k < |d| && NeedsSegment(d, s, k) ensures 0 <= d[k] < U32 {
        assert NeedsSegment(d', s', k) && d'[k] == d[k];
      }
    }
  }

  lemma TruncKeepsBytes(daddr: int, len: nat)
    requires len > 0
    ensures |Bytes(Run(Trunc32(daddr), len))| == |Bytes(Run(daddr, len))|
    ensures Bytes(Run(Trunc32(daddr), len)) == Bytes(Run(daddr, len)) <==> 0 <= daddr < U32
  {
    assert Bytes(Run(Trunc32(daddr), len))[0] == Trunc32(daddr) && Bytes(Run(daddr, len))[0] == daddr;
  }

  /** Narrowing changes no address exactly when every segment start fits. */
  lemma {:induction false} NarrowedExactIffFits(segs: seq<Seg>)
    requires PositiveSegs(segs)
    ensures Flat(Targets(Narrowed(segs))) == Flat(Targets(segs)) <==> Fits(segs)
    ensures Flat(Sources(Narrowed(segs))) == Flat(Sources(segs))
    ensures |Flat(Targets(Narrowed(segs)))| == |Flat(Targets(segs))|
  {
    if segs == [] {
      assert Narrowed(segs) == segs;
    } else {
      var init, end := segs[..|segs| - 1], segs[|segs| - 1];
      NarrowedExactIffFits(init);
      LastSegment(segs);
      LastSegment(Narrowed(segs));
      assert Narrowed(segs)[..|segs| - 1] == Narrowed(init);
      FitsAppend(init, end);
      InitLast(segs);
      TruncKeepsBytes(end.daddr, end.len);
      hide Flat, Bytes, Trunc32;
      SplitEqual(Flat(Targets(Narrowed(init))), Bytes(Run(Trunc32(end.daddr), end.len)),
                 Flat(Targets(init)), Bytes(Run(end.daddr, end.len)));
    }
  }

  lemma SplitEqual<T>(a: seq<T>, b: seq<T>, a': seq<T>, b': seq<T>)
    requires |a| == |a'|
    ensures a + b == a' + b' <==> a == a' && b == b'
  {
    if a + b == a' + b' {
      assert a == (a + b)[..|a|] && a' == (a' + b')[..|a|];
      assert b == (a + b)[|a|..] && b' == (a' + b')[|a|..];
    }
  }

  // ---- Joined chains never need a segment they could have merged --------------------------------------------------

  lemma {:induction false} WideSrcsSeparated(runs: seq<Run>, daddr: int)
    requires Separated(runs)
    ensures JointlySeparated(WideSrcs(runs, daddr))
  {
    WideSrcsVisit(runs, daddr);
    var segs := WideSrcs(runs, daddr);
    forall i, j {:trigger segs[i], segs[j]} | 0 <= i && j == i + 1 && j < |segs|
      ensures segs[i].saddr + segs[i].len != segs[j].saddr
    {
      assert Sources(segs)[i] == runs[i] && Sources(segs)[j] == runs[j];
    }
  }

  lemma JointlyAppend(a: seq<Seg>, b: seq<Seg>)
    requires JointlySeparated(a) && JointlySeparated(b)
    requires a != [] && b != [] ==> a[|a| - 1].daddr + a[|a| - 1].len != b[0].daddr
    ensures JointlySeparated(a + b)
  {
    var c := a + b;
    forall i, j {:trigger c[i], c[j]} | 0 <= i && j == i + 1 && j < |c|
      ensures c[i].daddr + c[i].len != c[j].daddr || c[i].saddr + c[i].len != c[j].saddr
    {
      if j < |a| {
        assert c[i] == a[i] && c[j] == a[j];
      } else if i >= |a| {
        assert c[i] == b[i - |a|] && c[j] == b[j - |a|];
      }
    }
  }

  lemma FirstOfWideDst(join: bool, sp: nat, sframes: seq<nat>, start: nat, r: Run)
    requires r.len > 0 && Mapped(sframes, sp, start, r.len)
    ensures var segs := WideDst(join, sp, sframes, start, r);
            segs != [] && segs[0].daddr == r.addr && segs[|segs| - 1].daddr + segs[|segs| - 1].len == r.addr + r.len
  {
    WideDstVisits(join, sp, sframes, start, r);
    var segs := WideDst(join, sp, sframes, start, r);
    hide WideDst, PhysRange, Cuts;
    assert Bytes(r)[0] == r.addr;
    LastByte(segs);
    FirstByte(segs);
    assert Bytes(r)[r.len - 1] == r.addr + r.len - 1;
  }

  lemma {:induction false} FirstByte(segs: seq<Seg>)
    requires segs != [] && PositiveSegs(segs)
    ensures Flat(Targets(segs)) != [] && Flat(Targets(segs))[0] == segs[0].daddr
  {
    LastSegment(segs);
    if |segs| == 1 {
      assert segs[..0] == [] && Flat(Targets([])) == [];
      assert Bytes(Run(segs[0].daddr, segs[0].len))[0] == segs[0].daddr;
    } else {
      FirstByte(segs[..|segs| - 1]);
    }
  }

  lemma {:induction false} WideChainSeparated(sp: nat, sframes: seq<nat>, sstart: nat, runs: seq<Run>)
    requires Positive(runs) && Separated(runs) && Mapped(sframes, sp, sstart, Total(runs))
    ensures var segs := WideChain(true, sp, sframes, sstart, runs);
            && JointlySeparated(segs)
            && (runs != [] ==> segs != [] && segs[|segs| - 1].daddr + segs[|segs| - 1].len == runs[|runs| - 1].addr + runs[|runs| - 1].len)
  {
    hide PhysRange, WideDst, Quot, Total;
    if runs != [] {
      var init, end := runs[..|runs| - 1], runs[|runs| - 1];
      assert end.len > 0;
      FlatLast(runs);
      MappedPart(sframes, sp, sstart, Total(runs), 0, Total(init));
      MappedPart(sframes, sp, sstart, Total(runs), Total(init), end.len);
      WideChainSeparated(sp, sframes, sstart, init);
      FirstOfWideDst(true, sp, sframes, sstart + Total(init), end);
      WideDstSeparated(sp, sframes, sstart + Total(init), end);
      JointlyAppend(WideChain(true, sp, sframes, sstart, init), WideDst(true, sp, sframes, sstart + Total(init), end));
    }
  }

  lemma WideDstSeparated(sp: nat, sframes: seq<nat>, start: nat, r: Run)
    requires r.len > 0 && Mapped(sframes, sp, start, r.len)
    ensures JointlySeparated(WideDst(true, sp, sframes, start, r))
  {
    CutsVisit(true, sframes, sp, start, r.len);
    WideSrcsSeparated(Cuts(true, sframes, sp, start, r.len), r.addr);
  }
}
