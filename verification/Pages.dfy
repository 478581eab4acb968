/**
 Page arithmetic of a shared memory buffer.

 A buffer owns a table of page frames and starts `offset` bytes into the first one.  A descriptor
 names `extent` bytes beginning `offset` bytes into the buffer.  The page size is a parameter: the
 two sites of a bind may use different ones.
 */
module Pages {
  import opened Division
  import opened Runs

  const U32 := 0x1_0000_0000
  const U64 := 0x1_0000_0000_0000_0000

  /** The part of a descriptor that the page arithmetic reads: u64 offset, 32-bit extent. */
  datatype Range = Range(offset: nat, extent: nat) {
    predicate Machine() { offset < U64 && extent < U32 }
  }

  // ---- The macros of vfi_smb.h ----------------------------------------------------------------

  predicate DescValid(b: Range, d: Range) {
    (d.offset + d.extent) % U64 <= b.extent
  }

  function StartPage(p: nat, b: Range, d: Range): nat requires p > 0 { Quot(b.offset + d.offset, p) }

  function EndPage(p: nat, b: Range, d: Range): nat
    requires p > 0 && b.offset + d.offset + d.extent > 0
  { Quot(b.offset + d.offset + d.extent - 1, p) }

  function StartOffset(p: nat, b: Range, d: Range): nat requires p > 0 { Rem(b.offset + d.offset, p) }

  function StartSize(p: nat, b: Range, d: Range): nat requires p > 0 {
    Split(b.offset + d.offset, p);
    var avail := p - StartOffset(p, b, d);
    if avail > d.extent then d.extent else avail
  }

  function EndSize(p: nat, b: Range, d: Range): nat requires p > 0 {
    Split(b.offset + d.offset + d.extent, p);
    var apsize := Rem(b.offset + d.offset + d.extent, p);
    if apsize > d.extent then 0 else apsize
  }

  function NumDma(p: nat, b: Range, d: Range): nat
    requires p > 0 && d.extent > 0
  {
    QuotMonotone(b.offset + d.offset, b.offset + d.offset + d.extent - 1, p);
    EndPage(p, b, d) - StartPage(p, b, d) + 1
  }

  // ---- Page tables ----------------------------------------------------------------------------

  /** Where byte `v` of the page-table range lives. */
  function Phys(frames: seq<nat>, p: nat, v: nat): int
    requires p > 0 && Quot(v, p) < |frames|
  {
    Split(v, p);
    Times(frames[Quot(v, p)], p) + Rem(v, p)
  }

  /** Every byte of `len` bytes from `start` has a page. */
  predicate Mapped(frames: seq<nat>, p: nat, start: nat, len: nat) {
    p > 0 && (len > 0 ==> Quot(start + len - 1, p) < |frames|)
  }

  lemma MappedAt(frames: seq<nat>, p: nat, start: nat, len: nat, k: nat)
    requires Mapped(frames, p, start, len) && k < len
    ensures Quot(start + k, p) < |frames|
  {
    QuotMonotone(start + k, start + len - 1, p);
  }

  lemma MappedPart(frames: seq<nat>, p: nat, start: nat, len: nat, off: nat, n: nat)
    requires Mapped(frames, p, start, len) && off + n <= len
    ensures Mapped(frames, p, start + off, n)
  {
    hide Quot;
    if n > 0 {
      QuotMonotone(start + off + n - 1, start + len - 1, p);
    }
  }

  /** The physical addresses of `len` bytes from `start`, in order: what a byte-by-byte copy would visit. */
  function PhysRange(frames: seq<nat>, p: nat, start: nat, len: nat): (a: seq<int>)
    requires Mapped(frames, p, start, len)
    ensures |a| == len
  {
    seq(len, (k: nat) requires k < len => (MappedAt(frames, p, start, len, k); Phys(frames, p, start + k)))
  }

  lemma PhysRangeAt(frames: seq<nat>, p: nat, start: nat, len: nat, k: nat)
    requires Mapped(frames, p, start, len) && k < len
    ensures Quot(start + k, p) < |frames| && PhysRange(frames, p, start, len)[k] == Phys(frames, p, start + k)
  {
    MappedAt(frames, p, start, len, k);
    hide Phys;
  }

  lemma PhysRangeSplit(frames: seq<nat>, p: nat, start: nat, len: nat, n: nat)
    requires Mapped(frames, p, start, len) && n <= len
    ensures Mapped(frames, p, start, n) && Mapped(frames, p, start + n, len - n)
    ensures PhysRange(frames, p, start, len) == PhysRange(frames, p, start, n) + PhysRange(frames, p, start + n, len - n)
  {
    MappedPart(frames, p, start, len, 0, n);
    MappedPart(frames, p, start, len, n, len - n);
    var l, r := PhysRange(frames, p, start, len), PhysRange(frames, p, start, n) + PhysRange(frames, p, start + n, len - n);
    hide Phys;
    forall k | 0 <= k < len ensures l[k] == r[k] {
      PhysRangeAt(frames, p, start, len, k);
      if k < n {
        PhysRangeAt(frames, p, start, n, k);
      } else {
        PhysRangeAt(frames, p, start + n, len - n, k - n);
        assert start + n + (k - n) == start + k;
      }
    }
  }

  /** Distinct frames give every byte its own address. */
  lemma DistinctFramesDistinctBytes(frames: seq<nat>, p: nat, start: nat, len: nat)
    requires Mapped(frames, p, start, len) && Distinct(frames)
    ensures Distinct(PhysRange(frames, p, start, len))
  {
    var a := PhysRange(frames, p, start, len);
    hide Phys;
    forall i, j | 0 <= i < j < |a| ensures a[i] != a[j] {
      PhysRangeAt(frames, p, start, len, i);
      PhysRangeAt(frames, p, start, len, j);
      SameAddressSameByte(frames, p, start + i, start + j);
    }
  }

  lemma SameAddressSameByte(frames: seq<nat>, p: nat, x: nat, y: nat)
    requires p > 0 && Quot(x, p) < |frames| && Quot(y, p) < |frames| && Distinct(frames)
    ensures Phys(frames, p, x) == Phys(frames, p, y) ==> x == y
  {
    var qx, qy, a := Quot(x, p), Quot(y, p), Phys(frames, p, x);
    Split(x, p);
    Split(y, p);
    if a == Phys(frames, p, y) {
      SplitUnique(frames[qx], Rem(x, p), a, p);
      SplitUnique(frames[qy], Rem(y, p), a, p);
      assert qx == qy;
    }
  }

  // ---- One page of a range --------------------------------------------------------------------

  function Max(a: int, b: int): int { if a < b then b else a }

  function Min(a: int, b: int): int { if a < b then a else b }

  /** First byte of the range that lies in page `page` or later. */
  function Lo(p: nat, start: nat, page: nat): nat { Max(start, Times(page, p)) }

  /** One past the last byte of the range that lies in page `page` or earlier. */
  function Hi(p: nat, start: nat, len: nat, page: nat): nat { Min(start + len, Times(page, p) + p) }

  lemma PageBounds(p: nat, start: nat, len: nat, page: nat)
    requires p > 0 && len > 0 && Quot(start, p) <= page <= Quot(start + len - 1, p)
    ensures Times(page, p) <= Lo(p, start, page) < Hi(p, start, len, page) <= Times(page, p) + p
    ensures Times(page + 1, p) == Times(page, p) + p
    ensures page == Quot(start, p) ==> Lo(p, start, page) == start
    ensures page > Quot(start, p) ==> Lo(p, start, page) == Times(page, p)
    ensures page < Quot(start + len - 1, p) ==> Hi(p, start, len, page) == Times(page, p) + p < start + len
    ensures page == Quot(start + len - 1, p) ==> Hi(p, start, len, page) == start + len
  {
    var first, last := Quot(start, p), Quot(start + len - 1, p);
    Split(start, p);
    Split(start + len - 1, p);
    if first < page { TimesStep(first, page, p); }
    if page < last { TimesStep(page, last, p); }
  }

  /** START_OFFSET and START_SIZE describe the first page. */
  lemma StartIsFirstPage(p: nat, b: Range, d: Range)
    requires p > 0 && d.extent > 0
    ensures var start, first := b.offset + d.offset, StartPage(p, b, d);
            && StartOffset(p, b, d) == start - Times(first, p)
            && StartSize(p, b, d) == Hi(p, start, d.extent, first) - start
  {
    Split(b.offset + d.offset, p);
  }

  /** END_SIZE is the part of the last page that is used, or 0 when all of it is. */
  lemma EndSizeIsLastPage(p: nat, b: Range, d: Range)
    requires p > 0 && d.extent > 0 && NumDma(p, b, d) > 1
    ensures b.offset + d.offset + d.extent - Times(EndPage(p, b, d), p)
         == if EndSize(p, b, d) != 0 then EndSize(p, b, d) else p
  {
    var start, last := b.offset + d.offset, EndPage(p, b, d);
    var end := start + d.extent;
    Split(start, p);
    Split(end - 1, p);
    TimesStep(Quot(start, p), last, p);
    var r := Rem(end - 1, p);
    if r + 1 < p {
      SplitUnique(last, r + 1, end, p);
    } else {
      assert Times(last + 1, p) == Times(last, p) + p;
      SplitUnique(last + 1, 0, end, p);
    }
  }

  // ---- Allocated pages --------------------------------------------------------------------------

  /** The page count of vfi_alloc_pages; `size + offset` is computed in a 32-bit size_t. */
  function NumPages(p: nat, extent: nat, offset: nat): nat requires p > 0 {
    var bytes := (extent + offset) % U32;
    Quot(bytes, p) + if Rem(bytes, p) != 0 then 1 else 0
  }

  /** The last page that a whole-buffer range touches is the last page allocated, unless the sum wrapped. */
  lemma NumPagesIsCeiling(p: nat, extent: nat, offset: nat)
    requires p > 0 && 0 < extent + offset < U32
    ensures NumPages(p, extent, offset) == Quot(extent + offset - 1, p) + 1
  {
    var n := extent + offset;
    Split(n, p);
    if Rem(n, p) != 0 {
      SplitUnique(Quot(n, p), Rem(n, p) - 1, n - 1, p);
    } else {
      assert Quot(n, p) > 0;
      TimesNext(Quot(n, p) - 1, p);
      SplitUnique(Quot(n, p) - 1, p - 1, n - 1, p);
    }
  }
}
