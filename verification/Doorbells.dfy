/**
 The RapidIO doorbell manager: event numbers first..last hashed over bins, each bin an inline slot
 followed by an overflow list, and a cursor to the shallowest bin that get and put keep up to date.

 This module is the manager on values: what each operation does to it, and what that means.
 */
module Doorbells {
  import opened Results
  import opened Division

  /** A registered event: its number, its callback (0 is NULL) and the callback's argument. */
  datatype Node = Node(id: int, cb: nat, arg: nat)

  /** A bin is unused (list head NULL), or holds a slot and a list. */
  datatype Bin = Empty | Used(slot: Node, list: seq<Node>)

  datatype Mgr = Mgr(first: int, last: int, hashlen: nat, bins: seq<Bin>, next: int, mindepth: nat, numAlloc: int)
  {
    function Num(): int { last - first + 1 }
  }

  function Entries(b: Bin): seq<Node> { if b.Empty? then [] else [b.slot] + b.list }

  function Depth(b: Bin): nat { |Entries(b)| }

  predicate HasId(es: seq<Node>, id: int) { exists i | 0 <= i < |es| :: es[i].id == id }

  /** The bin of an event number. */
  function BinOf(m: Mgr, id: int): nat
    requires m.first <= id && m.hashlen > 0
  {
    Rem(id - m.first, m.hashlen)
  }

  // ---- The cursor, recomputed from scratch ----------------------------------------------------------------

  /** Bin `r` is the first among the shallowest of the first `n` bins. */
  ghost predicate IsLeast(bins: seq<Bin>, n: nat, r: nat) {
    && r < n <= |bins|
    && (forall j {:trigger bins[j]} :: 0 <= j < n ==> Depth(bins[j]) >= Depth(bins[r]))
    && (forall j {:trigger bins[j]} :: 0 <= j < r ==> Depth(bins[j]) > Depth(bins[r]))
  }

  /** The least bin of least depth, among the first `n`. */
  function LeastOf(bins: seq<Bin>, n: nat): (r: nat)
    requires 0 < n <= |bins|
    ensures r < n
  {
    if n == 1 then 0
    else
      var r := LeastOf(bins, n - 1);
      if Depth(bins[n - 1]) < Depth(bins[r]) then n - 1 else r
  }

  lemma {:induction false} LeastOfIsLeast(bins: seq<Bin>, n: nat)
    requires 0 < n <= |bins|
    ensures IsLeast(bins, n, LeastOf(bins, n))
  {
    hide Depth;
    if n > 1 {
      LeastOfIsLeast(bins, n - 1);
    }
  }

  function LeastBin(bins: seq<Bin>): (r: nat)
    requires bins != []
    ensures IsLeast(bins, |bins|, r)
  {
    LeastOfIsLeast(bins, |bins|);
    LeastOf(bins, |bins|)
  }

  /** The least unused bin below `n`, or -1. */
  function LeastEmpty(bins: seq<Bin>, n: nat): (r: int)
    requires n <= |bins|
    ensures -1 <= r < n
    ensures r >= 0 ==> bins[r].Empty? && forall j {:trigger bins[j]} :: 0 <= j < r ==> bins[j].Used?
    ensures r == -1 ==> forall j {:trigger bins[j]} :: 0 <= j < n ==> bins[j].Used?
  {
    if n == 0 then -1
    else
      var r := LeastEmpty(bins, n - 1);
      if r >= 0 then r else if bins[n - 1].Empty? then n - 1 else -1
  }

  lemma LeastBinUnique(bins: seq<Bin>, r: nat)
    requires IsLeast(bins, |bins|, r)
    ensures LeastBin(bins) == r
  {
    var l := LeastBin(bins);
    assert Depth(bins[l]) >= Depth(bins[r]) && Depth(bins[r]) >= Depth(bins[l]);
  }

  // ---- The operations ----------------------------------------------------------------------------------------

  /** The least number from `id` on, in steps of `step`, that is not among the entries. */
  function FreeFrom(es: seq<Node>, id: int, last: int, step: nat): (r: Option<int>)
    requires step > 0
    ensures r.Some? ==> id <= r.value <= last && !HasId(es, r.value)
    decreases last - id + 1
  {
    if id > last then None
    else if HasId(es, id) then FreeFrom(es, id + step, last, step)
    else Some(id)
  }

  /** An operation with a bin changed, one more or one fewer number allocated, and the cursor found anew. */
  function Recount(m: Mgr, bin: nat, b: Bin, count: int): Mgr
    requires bin < |m.bins| == m.hashlen
  {
    var bins := m.bins[bin := b];
    if m.Num() <= m.hashlen then
      m.(bins := bins, numAlloc := count, next := LeastEmpty(bins, if m.Num() < 0 then 0 else m.Num()))
    else
      m.(bins := bins, numAlloc := count, next := LeastBin(bins), mindepth := Depth(bins[LeastBin(bins)]))
  }

  /** vfi_get_event: -1 when exhausted or out of memory, otherwise the number registered. */
  function AfterGet(m: Mgr, cb: nat, arg: nat, memory: bool): (Mgr, int)
    requires Inv(m)
  {
    if m.next == -1 then (m, -1)
    else if m.mindepth != 0 then
      if !memory then (m, -1)
      else
        var bin := m.bins[m.next];
        match FreeFrom(Entries(bin), m.next + m.first, m.last, m.hashlen)
        case None => (m.(next := -1), -1)
        case Some(id) => (Recount(m, m.next, bin.(list := bin.list + [Node(id, cb, arg)]), m.numAlloc + 1), id)
    else
      var id := m.next + m.first;
      (Recount(m, m.next, Used(Node(id, cb, arg), []), m.numAlloc + 1), id)
  }

  /** The bin without the entry `id`; the head of the list moves into a vacated slot. */
  function Without(b: Bin, id: int): Bin
    requires HasId(Entries(b), id)
  {
    if b.slot.id != id then b.(list := Dropped(b.list, id))
    else if b.list == [] then Empty
    else Used(b.list[0], b.list[1..])
  }

  function Dropped(es: seq<Node>, id: int): seq<Node> {
    if es == [] then [] else if es[0].id == id then es[1..] else [es[0]] + Dropped(es[1..], id)
  }

  /** vfi_put_event: 0, or -1 when `id` is out of range or not allocated. */
  function AfterPut(m: Mgr, id: int): (Mgr, int)
    requires Inv(m)
  {
    if id < m.first || id > m.last then (m, -1)
    else
      var bin := BinOf(m, id);
      if !HasId(Entries(m.bins[bin]), id) then (m, -1)
      else
        var m' := Recount(m, bin, Without(m.bins[bin], id), m.numAlloc - 1);
        if m.next == -1 && Depth(m.bins[bin]) > m.mindepth then
          (m'.(next := -1, mindepth := m.mindepth), 0)
        else
          (m', 0)
  }

  // ---- Invariant -----------------------------------------------------------------------------------------------

  function DepthSum(bins: seq<Bin>): nat {
    if bins == [] then 0 else DepthSum(bins[..|bins| - 1]) + Depth(bins[|bins| - 1])
  }

  /** The entries of bin `j` have different numbers, in range, and hashed to `j`. */
  ghost predicate BinOk(m: Mgr, j: nat, b: Bin)
    requires m.hashlen > 0
  {
    var es := Entries(b);
    && (forall i {:trigger es[i]} :: 0 <= i < |es| ==> m.first <= es[i].id <= m.last && BinOf(m, es[i].id) == j)
    && (forall i, k :: 0 <= i < k < |es| ==> es[i].id != es[k].id)
  }

  /** The bins are well formed and counted. */
  ghost predicate Shape(m: Mgr) {
    && 0 < m.hashlen == |m.bins| && m.Num() > 0 && m.first >= 0
    && (forall j {:trigger m.bins[j]} :: 0 <= j < m.hashlen ==> BinOk(m, j, m.bins[j]))
    && m.numAlloc == DepthSum(m.bins)
  }

  /** While the cursor is set it names the least bin of least depth; depths never fall below `mindepth`. */
  ghost predicate CursorOk(m: Mgr)
    requires 0 < m.hashlen == |m.bins| && m.Num() > 0
  {
    if m.Num() <= m.hashlen then
      && m.mindepth == 0
      && (forall j {:trigger m.bins[j]} :: 0 <= j < m.hashlen ==> Depth(m.bins[j]) <= 1)
      && (m.next != -1 ==> m.next == LeastEmpty(m.bins, m.Num()))
    else
      && (forall j {:trigger m.bins[j]} :: 0 <= j < m.hashlen ==> Depth(m.bins[j]) >= m.mindepth)
      && (m.next != -1 ==> m.next == LeastBin(m.bins) && m.mindepth == Depth(m.bins[m.next]))
  }

  ghost predicate Inv(m: Mgr) { Shape(m) && CursorOk(m) }

  /** vfi_events_init */
  function Initial(first: int, last: int, hashlen: nat): Mgr {
    Mgr(first, last, hashlen, seq(hashlen, _ => Empty), 0, 0, 0)
  }
}
