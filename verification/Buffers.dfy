/**
 Creating a shared memory buffer: its extent and offset are settled, then its pages are allocated.
 */
module Buffers {
  import opened Results
  import opened Division
  import opened Pages
  import opened BindCompiler

  /** DESC_VALID means containment, except where its 64-bit sum wraps round to a small number. */
  lemma DescValidIsContainment(b: Range, d: Range)
    requires b.Machine() && d.Machine()
    ensures (DescValid(b, d) <==> d.offset + d.extent <= b.extent) 
        <==> !(0x1_0000_0000_0000_0000 <= d.offset + d.extent <= 0x1_0000_0000_0000_0000 + b.extent)
  {
    var sum := d.offset + d.extent;
    if sum >= U64 {
      assert sum % U64 == sum - U64;
    }
  }

  /** The last byte of the buffer has a page if and only if the 32-bit page-count sum does not wrap. */
  lemma PagesCoverBuffer(p: nat, b: Range)
    requires 0 < p && 2 * p < U32 && b.Machine() && b.offset < p && b.extent > 0
    ensures Quot(b.offset + b.extent - 1, p) < NumPages(p, b.extent, b.offset) <==> b.offset + b.extent < 0x1_0000_0000
  {
    var sum := b.offset + b.extent;
    if sum < U32 {
      NumPagesIsCeiling(p, b.extent, b.offset);
    } else {
      assert sum % U32 == sum - U32 < p;
      SplitUnique(0, sum - U32, sum - U32, p);
      Split(sum - 1, p);
      assert Quot(sum - 1, p) > 0;
    }
  }

  /** alloc_page's answers, in order; None is a failed allocation. */
  type Supply = nat -> Option<nat>

  /** The first `n` answers. */
  function Taken(supply: Supply, n: nat): (pages: seq<Option<nat>>)
    ensures |pages| == n && forall i :: 0 <= i < n ==> pages[i] == supply(i)
  {
    if n == 0 then [] else Taken(supply, n - 1) + [supply(n - 1)]
  }

  ghost predicate AllPresent(pages: seq<Option<nat>>) { forall i :: 0 <= i < |pages| ==> pages[i].Some? }

  /** Whether vfi_alloc_pages gets enough of `num` pages; without "discontig" the last one may be missing. */
  ghost predicate Allocates(supply: Supply, num: nat, checksLast: bool) {
    if checksLast then AllPresent(Taken(supply, num)) else num == 0 || AllPresent(Taken(supply, num - 1))
  }

  /**
   vfi_alloc_pages.  The "discontig" loop stops on the page that failed; the other loop has already
   counted it.  So with "discontig" success means that every page is there, and without it success
   means that every page but the last one is: the last allocation may have failed unnoticed.
   */
  method AllocPages(num: nat, discontig: bool, supply: Supply) returns (r: Result<seq<Option<nat>>>)
    ensures r.Ok? ==> r.value == Taken(supply, num)
    ensures r.Ok? <==> Allocates(supply, num, discontig)
  {
    var pages: seq<Option<nat>> := [];
    if discontig {
      var page := 0;
      while page < num && supply(page).Some?
        invariant 0 <= page <= num && pages == Taken(supply, page) && AllPresent(pages)
      {
        pages := pages + [supply(page)];
        page := page + 1;
      }
      if page == num {
        return Ok(pages);
      }
      assert !Taken(supply, num)[page].Some?;
      return Err(NoMemory);
    }
    var page, remainder := 0, num;
    var failed := false;
    while remainder > 0 && !failed
      invariant 0 <= page <= num && remainder == num - page && pages == Taken(supply, page)
      invariant forall i :: 0 <= i < page - 1 ==> supply(i).Some?
      invariant page > 0 ==> (failed <==> supply(page - 1).None?)
      invariant page == 0 ==> !failed
    {
      pages := pages + [supply(page)];
      failed := supply(page).None?;
      page := page + 1;
      remainder := remainder - 1;
    }
    if page == num {
      return Ok(pages);
    }
    assert !Taken(supply, num - 1)[page - 1].Some?;
    return Err(NoMemory);
  }

  function Frames(pages: seq<Option<nat>>): seq<nat> {
    seq(|pages|, i requires 0 <= i < |pages| => pages[i].GetOr(0))
  }

  /** What there is after an allocation, and whether it will do for every byte. */
  lemma AllocatedPages(p: nat, b: Range, supply: Supply, checksLast: bool)
    requires 32 < p && 2 * p < U32 && b.offset < p && b.extent < U32
    requires Allocates(supply, NumPages(p, b.extent, b.offset), checksLast)
    ensures var pages := Taken(supply, NumPages(p, b.extent, b.offset));
            && (checksLast || |pages| == 0 ==> AllPresent(pages))
            && (|pages| > 0 ==> AllPresent(pages[..|pages| - 1]) && (AllPresent(pages) <==> pages[|pages| - 1].Some?))
            && (BufferReady(p, Smb(b, Frames(pages))) <==> b.offset + b.extent < U32)
  {
    var num := NumPages(p, b.extent, b.offset);
    hide NumPages;
    var pages := Taken(supply, num);
    if num > 0 {
      var init := Taken(supply, num - 1);
      assert pages[..num - 1] == init;
      assert AllPresent(init);
      forall i | 0 <= i < num - 1 ensures pages[i].Some? {
        assert init[i].Some?;
      }
    }
  }

  /**
   vfi_local_smb_create: an unspecified extent may come from map_extent, a map_address contributes its
   place in its page to both offset and extent, and offsets within 32 bytes of the page end are refused.
   The user's pages, like "discontig" ones, are there when the call succeeds; a map_address within page 0
   leaves no page address, and ordinary pages are allocated.
   */
  method SmbCreate(p: nat, desc: Range, mapExtent: Option<nat>, mapAddress: Option<nat>, discontig: bool, supply: Supply)
    returns (r: Result<Smb>, pages: seq<Option<nat>>)
    requires 32 < p && 2 * p < U32 && desc.Machine()
    requires mapExtent.Some? ==> mapExtent.value < U32
    ensures var skew := if mapAddress.Some? then Rem(mapAddress.value, p) else 0;
            var userPages := mapAddress.Some? && mapAddress.value >= p;
            var wanted := if desc.extent > 0 then desc.extent else mapExtent.GetOr(0);
            var offset, extent := (desc.offset + skew) % 0x1_0000_0000_0000_0000, (wanted + skew) % 0x1_0000_0000;
            var num := NumPages(p, extent, offset);
            && (r.Ok? <==> (desc.extent > 0 || mapExtent.Some?) && offset + 32 <= p && Allocates(supply, num, discontig || userPages))
            && (r.Ok? ==> r.value == Smb(Range(offset, extent), Frames(pages)) && pages == Taken(supply, num))
    ensures r.Ok? && ((mapAddress.Some? && mapAddress.value >= p) || discontig || |pages| == 0) ==> AllPresent(pages)
    ensures r.Ok? && |pages| > 0 ==> AllPresent(pages[..|pages| - 1]) && (AllPresent(pages) <==> pages[|pages| - 1].Some?)
    ensures r.Ok? ==> (BufferReady(p, r.value) <==> r.value.range.offset + r.value.range.extent < 0x1_0000_0000)
  {
    hide Allocates, NumPages, Taken, AllPresent, Frames, BufferReady, Rem;
    var extent, offset := desc.extent, desc.offset;
    pages := [];
    if extent == 0 {
      if mapExtent.None? {
        return Err(Invalid), pages;
      }
      extent := mapExtent.value;
    }
    if mapAddress.Some? {
      var skew := Rem(mapAddress.value, p);
      offset := (offset + skew) % U64;
      extent := (extent + skew) % U32;
    }
    if offset > p - 32 {
      return Err(Invalid), pages;
    }
    var num := NumPages(p, extent, offset);
    var checksLast := discontig || (mapAddress.Some? && mapAddress.value >= p);
    var alloc := AllocPages(num, checksLast, supply);
    if alloc.Err? {
      return Err(alloc.error), pages;
    }
    pages := alloc.value;
    AllocatedPages(p, Range(offset, extent), supply, checksLast);
    r := Ok(Smb(Range(offset, extent), Frames(pages)));
  }

  // ---- A buffer over the user's memory --------------------------------------------------------------------------

  /** The frames of the user's pages from the one that holds `address` on, as get_user_pages pins them. */
  ghost predicate Pins(supply: Supply, userFrame: nat -> nat, p: nat, address: nat)
    requires p > 0
  {
    forall k :: supply(k) == Some(userFrame(Quot(address, p) + k))
  }

  /**
   A buffer created over the user's memory is that memory: as long as the 64-bit offset does not wrap,
   its byte `k` is the byte at map_address plus the requested offset plus `k` of the user's address space.
   */
  lemma UserBufferIsUserMemory(p: nat, smb: Smb, offset: nat, address: nat, supply: Supply, userFrame: nat -> nat, k: nat)
    requires p > 0 && Pins(supply, userFrame, p, address)
    requires smb.frames == Frames(Taken(supply, |smb.frames|)) && smb.range.offset == offset + Rem(address, p)
    requires Quot(smb.range.offset + k, p) < |smb.frames|
    ensures var v := address + offset + k;
            Phys(smb.frames, p, smb.range.offset + k) == userFrame(v / p) * p + v % p
  {
    var at, v := smb.range.offset + k, address + offset + k;
    Split(address, p);
    Split(at, p);
    TimesPlus(Quot(address, p), Quot(at, p), p);
    assert v == Times(Quot(address, p), p) + at;
    SplitUnique(Quot(address, p) + Quot(at, p), Rem(at, p), v, p);
    var i := Quot(at, p);
    assert smb.frames[i] == Taken(supply, |smb.frames|)[i].GetOr(0) == userFrame(Quot(address, p) + i);
  }

  lemma TimesPlus(a: nat, b: nat, p: nat)
    ensures Times(a + b, p) == Times(a, p) + Times(b, p)
  {
    assert (a + b) * p == a * p + b * p;
  }
}
