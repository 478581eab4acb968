/**
 Hardware descriptor chains: loading a segment into the controller's format, linking segments,
 splicing lists, and the walk that the DMA engine makes from the transfer object's link.
 */
module DmaChain {
  import opened Pages
  import opened BindCompiler
  import opened Binds
  import opened BindMeaning

  const END_OF_CHAIN := 1
  const DESC_ALIGN := 32

  // ---- Address fields -----------------------------------------------------------------------------------

  /** How many address bits a descriptor can carry: 36 for local memory, 34 over RapidIO. */
  function AddressLimit(local: bool): int { if local then 16 * U32 else 4 * U32 }

  /** What the controller reads in a link descriptor. */
  datatype Hw = Hw(saddr: int, high: int, daddr: int, nbytes: nat, next: int)

  /** The source address the controller forms: the low word, and the high bits stashed in the attributes. */
  function SourceAddress(hw: Hw): int { hw.high * U32 + hw.saddr }

  function High(local: bool): int { if local then 16 else 4 }

  /** The low word and the masked high bits make up the address as far as there are bits for it. */
  lemma SplitAddress(a: int, local: bool)
    ensures ((a / U32) % High(local)) * U32 + a % U32 == a % AddressLimit(local)
    ensures a % AddressLimit(local) == a <==> 0 <= a < if local then 0x10_0000_0000 else 0x4_0000_0000
  {
    var k, h, m := a / U32 / High(local), (a / U32) % High(local), a % U32;
    assert a == (U32 * High(local)) * k + (h * U32 + m);
  }

  /** One descriptor in memory, at physical address `paddr`. */
  class SegDesc {
    var saddr: int
    var high: int
    var daddr: int
    var nbytes: nat
    var next: int
    var paddr: int

    function Image(): Hw reads this { Hw(saddr, high, daddr, nbytes, next) }

    /** dma_rio_load */
    constructor Load(seg: Seg, local: bool, at: int)
      ensures paddr == at && next == END_OF_CHAIN
      ensures SourceAddress(Image()) == seg.saddr % AddressLimit(local)
      ensures saddr == seg.saddr % 0x1_0000_0000 && 0 <= high < if local then 16 else 4
      ensures daddr == seg.daddr % 0x1_0000_0000 && nbytes == seg.len
      ensures SourceAddress(Image()) == seg.saddr <==> 0 <= seg.saddr < if local then 0x10_0000_0000 else 0x4_0000_0000
    {
      paddr := at;
      saddr := seg.saddr % U32;
      high := (seg.saddr / U32) % High(local);
      daddr := seg.daddr % U32;
      nbytes := seg.len;
      next := END_OF_CHAIN;
      new;
      SplitAddress(seg.saddr, local);
    }
  }

  /** A list head: `dma_chain`. */
  class DmaList {
    var items: seq<SegDesc>

    constructor ()
      ensures items == []
    {
      items := [];
    }
  }

  /** The link field drops the five low bits of an address. */
  function Masked(paddr: int): int { paddr - paddr % DESC_ALIGN }

  /** Exactly the 32-byte aligned addresses survive in a link; any other is rounded down to the one before. */
  lemma LinkKeepsAligned(paddr: int)
    ensures Masked(paddr) == paddr <==> paddr % 32 == 0
    ensures Masked(paddr) % 32 == 0 && paddr - 32 < Masked(paddr) <= paddr
  {
  }

  /** Every descriptor's `next` names the one after it, and the last one ends the chain. */
  ghost predicate Linked(items: seq<SegDesc>)
    reads items
  {
    && (forall i, j :: 0 <= i < j < |items| ==> items[i] != items[j])
    && (forall i, j {:trigger items[i], items[j]} :: 0 <= i && j == i + 1 && j < |items| ==> items[i].next == Masked(items[j].paddr))
    && (items != [] ==> items[|items| - 1].next == END_OF_CHAIN)
  }

  // ---- Linking --------------------------------------------------------------------------------------------

  /** dma_rio_link_src: hook a segment to the end of its fragment's chain. */
  method LinkSrc(first: DmaList, second: SegDesc)
    requires Linked(first.items) && second !in first.items && second.next == END_OF_CHAIN
    modifies first, (set s | s in first.items)`next
    ensures first.items == old(first.items) + [second] && Linked(first.items)
  {
    if first.items != [] {
      var last := first.items[|first.items| - 1];
      last.next := Masked(second.paddr);
    }
    first.items := first.items + [second];
  }

  /** dma_rio_link_dst: hook a fragment's whole chain to the end of the bind's. */
  method LinkDst(first: DmaList, srcs: DmaList)
    requires first != srcs && Linked(first.items) && Linked(srcs.items) && srcs.items != []
    requires forall s :: s in first.items ==> s !in srcs.items
    modifies first, (set s | s in first.items)`next
    ensures first.items == old(first.items) + srcs.items && Linked(first.items)
  {
    if first.items != [] {
      var last := first.items[|first.items| - 1];
      last.next := Masked(srcs.items[0].paddr);
    }
    first.items := first.items + srcs.items;
    ghost var n, all := |old(first.items)|, first.items;
    forall i, j {:trigger all[i], all[j]} | 0 <= i && j == i + 1 && j < |all| ensures all[i].next == Masked(all[j].paddr) {
      if i >= n {
        assert all[i] == srcs.items[i - n] && all[j] == srcs.items[j - n];
      } else if j < n {
        assert all[i] == old(first.items)[i] && all[j] == old(first.items)[j];
      }
    }
    assert all[|all| - 1] == srcs.items[|srcs.items| - 1];
    forall i, j | 0 <= i < j < |all| ensures all[i] != all[j] {
      if i >= n {
        assert all[i] == srcs.items[i - n] && all[j] == srcs.items[j - n];
      } else if j >= n {
        assert all[i] in old(first.items) && all[j] == srcs.items[j - n] && all[j] in srcs.items;
      } else {
        assert all[i] == old(first.items)[i] && all[j] == old(first.items)[j];
      }
    }
    assert all[|all| - 1].next == END_OF_CHAIN;
  }

  // ---- Loading a bind ---------------------------------------------------------------------------------------

  /** The descriptor carries the segment, as far as its fields are wide enough. */
  ghost predicate Carries(d: SegDesc, seg: Seg, local: bool)
    reads d`saddr, d`high, d`daddr, d`nbytes
  {
    && d.high * U32 + d.saddr == seg.saddr % AddressLimit(local)
    && d.daddr == seg.daddr % U32
    && d.nbytes == seg.len
  }

  /** `items` are linked descriptors for `segs`, at the given addresses. */
  ghost predicate Loaded(items: seq<SegDesc>, segs: seq<Seg>, local: bool, addrs: seq<int>)
    reads items
  {
    && Linked(items)
    && |items| == |segs| == |addrs|
    && forall i {:trigger items[i]} :: 0 <= i < |items| ==> items[i].paddr == addrs[i] && Carries(items[i], segs[i], local)
  }

  lemma NothingLoaded(local: bool)
    ensures Loaded([], [], local, [])
  {
  }

  /** One segment: fill in its descriptor and link it behind the fragment's last. */
  method LoadSrc(chain: DmaList, seg: Seg, local: bool, addr: int, ghost segs: seq<Seg>, ghost addrs: seq<int>)
    requires Loaded(chain.items, segs, local, addrs)
    modifies chain, (set s | s in chain.items)`next
    ensures exists d :: fresh(d) && chain.items == old(chain.items) + [d]
    ensures Loaded(chain.items, segs + [seg], local, addrs + [addr])
  {
    var d := new SegDesc.Load(seg, local, addr);
    ghost var before := chain.items;
    LinkSrc(chain, d);
    hide Linked;
    LoadedConcat(before, [d], segs, [seg], local, addrs, [addr]);
  }

  /** vfi_dst_load_srcs: load and link a fragment's segments in list order. */
  method LoadSrcs(srcs: seq<Seg>, local: bool, addrs: seq<int>) returns (chain: DmaList)
    requires |addrs| == |srcs|
    ensures fresh(chain) && fresh(chain.items)
    ensures Loaded(chain.items, srcs, local, addrs)
  {
    chain := new DmaList();
    NothingLoaded(local);
    assert srcs[..0] == [] && addrs[..0] == [];
    hide Loaded;
    var n := 0;
    while n < |srcs|
      invariant 0 <= n <= |srcs|
      invariant fresh(chain) && fresh(chain.items)
      invariant Loaded(chain.items, srcs[..n], local, addrs[..n])
    {
      LoadSrc(chain, srcs[n], local, addrs[n], srcs[..n], addrs[..n]);
      assert srcs[..n + 1] == srcs[..n] + [srcs[n]] && addrs[..n + 1] == addrs[..n] + [addrs[n]];
      n := n + 1;
    }
    assert srcs[..n] == srcs && addrs[..n] == addrs;
  }

  lemma LoadedConcat(a: seq<SegDesc>, b: seq<SegDesc>, sa: seq<Seg>, sb: seq<Seg>, local: bool, la: seq<int>, lb: seq<int>)
    requires |a| == |sa| == |la| && |b| == |sb| == |lb| && Linked(a + b)
    requires forall i {:trigger a[i]} :: 0 <= i < |a| ==> a[i].paddr == la[i] && Carries(a[i], sa[i], local)
    requires forall i {:trigger b[i]} :: 0 <= i < |b| ==> b[i].paddr == lb[i] && Carries(b[i], sb[i], local)
    ensures Loaded(a + b, sa + sb, local, la + lb)
  {
    var c := a + b;
    forall i {:trigger c[i]} | 0 <= i < |c| ensures c[i].paddr == (la + lb)[i] && Carries(c[i], (sa + sb)[i], local) {
      if i < |a| { assert c[i] == a[i]; } else { assert c[i] == b[i - |a|]; }
    }
  }

  lemma {:induction false} ChainLength(dsts: seq<Dst>, n: nat)
    requires n < |dsts|
    ensures Chain(dsts[..n + 1]) == Chain(dsts[..n]) + dsts[n].srcs && |Chain(dsts[..n + 1])| <= |Chain(dsts)|
    decreases |dsts| - n
  {
    assert dsts[..n + 1][..n] == dsts[..n];
    if n + 1 < |dsts| {
      ChainLength(dsts, n + 1);
    } else {
      assert dsts[..n + 1] == dsts;
    }
  }

  /** One fragment: load its segments, then hook them to the bind's chain so far. */
  method LoadDst(all: DmaList, srcs: seq<Seg>, local: bool, mine: seq<int>, ghost segs: seq<Seg>, ghost addrs: seq<int>)
    requires Loaded(all.items, segs, local, addrs) && srcs != [] && |mine| == |srcs|
    modifies all, (set s | s in all.items)`next
    ensures forall s :: s in all.items ==> s in old(all.items) || fresh(s)
    ensures Loaded(all.items, segs + srcs, local, addrs + mine)
  {
    hide Carries, Masked;
    var chain := LoadSrcs(srcs, local, mine);
    ghost var before := all.items;
    LinkDst(all, chain);
    LoadedConcat(before, chain.items, segs, srcs, local, addrs, mine);
  }

  lemma NextSlice<T>(a: seq<T>, i: nat, n: nat)
    requires i + n <= |a|
    ensures a[..i] + a[i..i + n] == a[..i + n]
  {
  }

  /** One turn of the loop of vfi_bind_load_dsts, whose fragments so far took the first `used` places. */
  method LoadNext(all: DmaList, dsts: seq<Dst>, local: bool, addrs: seq<int>, n: nat, used: nat)
    requires n < |dsts| && dsts[n].srcs != [] && |addrs| == |Chain(dsts)|
    requires used == |Chain(dsts[..n])| <= |addrs| && Loaded(all.items, Chain(dsts[..n]), local, addrs[..used])
    modifies all, (set s | s in all.items)`next
    ensures forall s :: s in all.items ==> s in old(all.items) || fresh(s)
    ensures used + |dsts[n].srcs| == |Chain(dsts[..n + 1])| <= |addrs|
    ensures Loaded(all.items, Chain(dsts[..n + 1]), local, addrs[..used + |dsts[n].srcs|])
  {
    ChainLength(dsts, n);
    NextSlice(addrs, used, |dsts[n].srcs|);
    hide Loaded, Chain;
    LoadDst(all, dsts[n].srcs, local, addrs[used..used + |dsts[n].srcs|], Chain(dsts[..n]), addrs[..used]);
  }

  /** The loop of vfi_bind_load_dsts: hook all fragments' chains together. */
  method LoadDsts(dsts: seq<Dst>, local: bool, addrs: seq<int>) returns (all: DmaList)
    requires forall i :: 0 <= i < |dsts| ==> dsts[i].srcs != []
    requires |addrs| == |Chain(dsts)|
    ensures fresh(all) && forall s :: s in all.items ==> fresh(s)
    ensures Loaded(all.items, Chain(dsts), local, addrs)
  {
    assert dsts[..0] == [] && Chain(dsts[..0]) == [] && addrs[..0] == [];
    NothingLoaded(local);
    hide Loaded, Chain;
    all := new DmaList();
    var n, used := 0, 0;
    while n < |dsts|
      invariant 0 <= n <= |dsts|
      invariant fresh(all) && forall s :: s in all.items ==> fresh(s)
      invariant used == |Chain(dsts[..n])| <= |addrs|
      invariant Loaded(all.items, Chain(dsts[..n]), local, addrs[..used])
    {
      LoadNext(all, dsts, local, addrs, n, used);
      used := used + |dsts[n].srcs|;
      n := n + 1;
    }
    assert dsts[..n] == dsts && addrs[..used] == addrs;
  }

  /**
   vfi_bind_load_dsts and dma_rio_link_bind: splice the fragments' chain into the bind, and point the
   transfer object's link at its first descriptor.
   */
  method LoadBind(dsts: seq<Dst>, local: bool, addrs: seq<int>) returns (link: int, chain: DmaList)
    requires forall i :: 0 <= i < |dsts| ==> dsts[i].srcs != []
    requires |addrs| == |Chain(dsts)| > 0
    ensures fresh(chain) && forall s :: s in chain.items ==> fresh(s)
    ensures Loaded(chain.items, Chain(dsts), local, addrs)
    ensures link == addrs[0]
  {
    var all := LoadDsts(dsts, local, addrs);
    chain := new DmaList();
    chain.items := all.items + chain.items;
    assert chain.items == all.items;
    link := chain.items[0].paddr;
  }

  // ---- The hardware's walk --------------------------------------------------------------------------------------

  /** Following `next` from `at`, the engine visits exactly `visited` and then finds the end-of-chain flag. */
  ghost predicate Walks(mem: map<int, Hw>, at: int, visited: seq<Hw>)
    decreases |visited|
  {
    if at % 2 == END_OF_CHAIN then visited == []
    else
      && visited != []
      && Masked(at) in mem && mem[Masked(at)] == visited[0]
      && Walks(mem, visited[0].next, visited[1..])
  }

  /** There is at most one such walk. */
  lemma {:induction false} WalkIsUnique(mem: map<int, Hw>, at: int, v: seq<Hw>, w: seq<Hw>)
    requires Walks(mem, at, v) && Walks(mem, at, w)
    ensures v == w
    decreases |v|
  {
    if v != [] {
      WalkIsUnique(mem, v[0].next, v[1..], w[1..]);
      assert v == [v[0]] + v[1..] && w == [w[0]] + w[1..];
    }
  }

  ghost function Images(items: seq<SegDesc>): seq<Hw>
    reads items
  {
    seq(|items|, i requires 0 <= i < |items| reads items => items[i].Image())
  }

  /** Descriptor memory holds the chain: each descriptor at its own aligned address. */
  ghost predicate Resident(mem: map<int, Hw>, items: seq<SegDesc>)
    reads items
  {
    forall i {:trigger items[i]} :: 0 <= i < |items| ==>
      items[i].paddr % 32 == 0 && items[i].paddr in mem && mem[items[i].paddr] == items[i].Image()
  }

  /** From a linked list's first descriptor the engine visits the whole list, in order, once each, and stops. */
  lemma {:induction false} WalkVisitsList(mem: map<int, Hw>, items: seq<SegDesc>)
    requires items != [] && Linked(items) && Resident(mem, items)
    ensures Walks(mem, items[0].paddr, Images(items))
    decreases |items|
  {
    var rest := items[1..];
    assert Images(items)[1..] == Images(rest);
    assert Images(items)[0] == items[0].Image();
    if rest == [] {
      assert items[0].next == END_OF_CHAIN;
    } else {
      assert items[0].next == Masked(items[1].paddr) == items[1].paddr && rest[0] == items[1];
      assert Linked(rest) by {
        forall i, j | 0 <= i < j < |rest| ensures rest[i] != rest[j] {
          assert rest[i] == items[i + 1] && rest[j] == items[j + 1];
        }
        forall i, j {:trigger rest[i], rest[j]} | 0 <= i && j == i + 1 && j < |rest| ensures rest[i].next == Masked(rest[j].paddr) {
          assert rest[i] == items[i + 1] && rest[j] == items[j + 1];
        }
        assert rest[|rest| - 1] == items[|items| - 1];
      }
      assert Resident(mem, rest) by {
        forall i {:trigger rest[i]} | 0 <= i < |rest|
          ensures rest[i].paddr % 32 == 0 && rest[i].paddr in mem && mem[rest[i].paddr] == rest[i].Image()
        {
          assert rest[i] == items[i + 1];
        }
      }
      WalkVisitsList(mem, rest);
    }
  }

  /** The copy a descriptor stands for. */
  function SegOf(hw: Hw): Seg { Seg(SourceAddress(hw), hw.daddr, hw.nbytes) }

  ghost function SegsOf(hws: seq<Hw>): seq<Seg> { seq(|hws|, i requires 0 <= i < |hws| => SegOf(hws[i])) }

  /** The segments' addresses fit the descriptor's fields: 36 bits of a local source, 34 of a remote one, 32 of a destination. */
  ghost predicate FieldsFit(segs: seq<Seg>, local: bool) {
    forall i {:trigger segs[i]} :: 0 <= i < |segs| ==>
      && 0 <= segs[i].saddr < (if local then 0x10_0000_0000 else 0x4_0000_0000)
      && 0 <= segs[i].daddr < 0x1_0000_0000
  }

  /**
   The engine started at the head of a loaded chain carries out exactly the chain's segments, in
   order, if and only if their addresses fit the descriptor's fields.
   */
  lemma EngineRunsChain(mem: map<int, Hw>, items: seq<SegDesc>, segs: seq<Seg>, local: bool, addrs: seq<int>)
    requires items != [] && Loaded(items, segs, local, addrs) && Resident(mem, items)
    ensures Walks(mem, addrs[0], Images(items))
    ensures SegsOf(Images(items)) == segs <==> FieldsFit(segs, local)
  {
    WalkVisitsList(mem, items);
    var run := SegsOf(Images(items));
    assert items[0].paddr == addrs[0];
    forall i {:trigger segs[i]} | 0 <= i < |segs|
      ensures run[i] == segs[i] <==> 0 <= segs[i].saddr < AddressLimit(local) && 0 <= segs[i].daddr < U32
    {
      assert Carries(items[i], segs[i], local);
    }
    if FieldsFit(segs, local) {
      assert forall i :: 0 <= i < |segs| ==> run[i] == segs[i];
    }
    if run == segs {
      assert forall i :: 0 <= i < |segs| ==> run[i] == segs[i];
    }
  }
}
