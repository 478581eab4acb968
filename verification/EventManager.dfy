/**
 The doorbell manager in place: an array of bins, a cursor, and the scans that keep the cursor right
 without looking at every bin.  Each method is proved to do what module Doorbells says.
 */
module EventManager {
  import opened Results
  import opened Division
  import opened Doorbells
  import opened DoorbellTheorems

  /** find_db_in_list: the 1-based position of `val` in a list, or 0. */
  method FindInList(q: seq<Node>, val: int) returns (depth: nat)
    ensures depth <= |q| && (depth > 0 ==> q[depth - 1].id == val && forall i :: 0 <= i < depth - 1 ==> q[i].id != val)
    ensures depth == 0 <==> !HasId(q, val)
  {
    depth := 0;
    while depth < |q|
      invariant depth <= |q| && forall i :: 0 <= i < depth ==> q[i].id != val
    {
      depth := depth + 1;
      if q[depth - 1].id == val {
        return;
      }
    }
    depth := 0;
  }

  /** list_len */
  method ListLen(q: seq<Node>) returns (n: nat)
    ensures n == |q|
  {
    n := 0;
    while n < |q|
      invariant n <= |q|
    {
      n := n + 1;
    }
  }

  lemma HasIdInBin(b: Bin, id: int)
    requires b.Used?
    ensures HasId(Entries(b), id) <==> b.slot.id == id || HasId(b.list, id)
  {
    HasIdTail(Entries(b), id);
    assert Entries(b)[1..] == b.list;
  }

  lemma {:induction false} FindAt(es: seq<Node>, id: int, i: nat)
    requires i < |es| && es[i].id == id && forall k :: 0 <= k < i ==> es[k].id != id
    ensures Find(es, id) == Some((es[i].cb, es[i].arg))
  {
    if i > 0 {
      FindAt(es[1..], id, i - 1);
    }
  }

  lemma {:induction false} DroppedAt(es: seq<Node>, id: int, i: nat)
    requires i < |es| && es[i].id == id && forall k :: 0 <= k < i ==> es[k].id != id
    ensures Dropped(es, id) == es[..i] + es[i + 1..]
  {
    if i > 0 {
      DroppedAt(es[1..], id, i - 1);
      assert es[..i] + es[i + 1..] == [es[0]] + (es[1..][..i - 1] + es[1..][i..]);
    }
  }

  lemma LeastEmptyUnique(bins: seq<Bin>, n: nat, r: int)
    requires n <= |bins| && -1 <= r < n
    requires r >= 0 ==> bins[r].Empty? && forall j {:trigger bins[j]} :: 0 <= j < r ==> bins[j].Used?
    requires r == -1 ==> forall j {:trigger bins[j]} :: 0 <= j < n ==> bins[j].Used?
    ensures LeastEmpty(bins, n) == r
  {
    var l := LeastEmpty(bins, n);
    if l >= 0 { assert bins[l].Empty?; }
  }

  class EventMgr {
    const first: int
    const last: int
    const hashlen: nat
    const harray: array<Bin>
    var next: int
    var mindepth: nat
    var numAlloc: int
    var highWater: int

    ghost function State(): Mgr
      reads this, harray
    {
      Mgr(first, last, hashlen, harray[..], next, mindepth, numAlloc)
    }

    /** vfi_events_init */
    constructor (first: int, last: int, hashlen: nat)
      requires 0 <= first <= last && hashlen > 0
      ensures fresh(harray) && State() == Initial(first, last, hashlen) && Inv(State()) && highWater == 0
    {
      this.first := first;
      this.last := last;
      this.hashlen := hashlen;
      harray := new Bin[hashlen](_ => Empty);
      next, mindepth, numAlloc, highWater := 0, 0, 0, 0;
      new;
      assert harray[..] == Initial(first, last, hashlen).bins;
      InitialIsEmpty(first, last, hashlen);
    }

    /** The search loop of vfi_get_event: the first number of the cursor's class that is not in its bin. */
    method FindFreeId(bin: nat) returns (id: int)
      requires hashlen > 0 && bin < harray.Length && harray[bin].Used?
      ensures match FreeFrom(Entries(harray[bin]), bin + first, last, hashlen)
              case None => id > last
              case Some(free) => id == free <= last
    {
      id := bin + first;
      while id <= last
        invariant FreeFrom(Entries(harray[bin]), bin + first, last, hashlen) == FreeFrom(Entries(harray[bin]), id, last, hashlen)
        decreases last - id
      {
        HasIdInBin(harray[bin], id);
        if id != harray[bin].slot.id {
          var depth := FindInList(harray[bin].list, id);
          if depth == 0 {
            return;
          }
        }
        id := id + hashlen;
      }
    }

    /** The rescan when every number has its own bin: the next unused bin, or none. */
    method RescanSlots(bin: nat) returns (found: int)
      requires last - first + 1 <= hashlen == harray.Length && bin < last - first + 1
      requires forall j {:trigger harray[j]} :: 0 <= j <= bin ==> harray[j].Used?
      ensures found == LeastEmpty(harray[..], last - first + 1)
    {
      var num := last - first + 1;
      var i := bin + 1;
      while i < num
        invariant bin < i <= num && forall j {:trigger harray[j]} :: 0 <= j < i ==> harray[j].Used?
      {
        if harray[i].Empty? {
          LeastEmptyUnique(harray[..], num, i);
          return i;
        }
        i := i + 1;
      }
      LeastEmptyUnique(harray[..], num, -1);
      return -1;
    }

    /** The depth of a bin, as vfi_put_event computes it. */
    method BinDepth(i: nat) returns (depth: nat)
      requires i < harray.Length
      ensures depth == Depth(harray[i])
    {
      if harray[i].Empty? {
        return 0;
      }
      depth := ListLen(harray[i].list);
      depth := 1 + depth;
    }

    /** The depth of a bin in use: its list is walked, which an unused bin does not have. */
    method UsedDepth(i: nat) returns (depth: nat)
      requires i < harray.Length && harray[i].Used?
      ensures depth == Depth(harray[i])
    {
      depth := ListLen(harray[i].list);
      depth := depth + 1;
    }

    /**
     The rescan over lists: look behind the bin just filled for one that is still at `mindepth`; failing
     that, raise `mindepth` until a bin is that deep. The second scan walks every list without asking
     whether its bin is in use, and by then all of them are: each is deeper than `mindepth`.
     */
    method RescanDepths(bin: nat) returns (found: nat, depth: nat)
      requires 0 < hashlen == harray.Length && bin < hashlen
      requires Depth(harray[bin]) > mindepth
      requires forall j {:trigger harray[j]} :: 0 <= j < hashlen ==> Depth(harray[j]) >= mindepth
      requires forall j {:trigger harray[j]} :: 0 <= j < bin ==> Depth(harray[j]) > mindepth
      ensures found == LeastBin(harray[..]) && depth == Depth(harray[..][found])
    {
      hide Depth;
      var i := if bin + 1 == hashlen then 0 else bin + 1;
      while i < hashlen
        invariant 0 <= i <= hashlen
        invariant forall j {:trigger harray[j]} :: 0 <= j < i ==> Depth(harray[j]) > mindepth
      {
        DepthOfUsed(harray[i]);
        var shallow := harray[i].Empty?;
        if !shallow {
          var bindepth := UsedDepth(i);
          shallow := bindepth <= mindepth;
        }
        if shallow {
          assert IsLeast(harray[..], |harray[..]|, i);
          LeastBinUnique(harray[..], i);
          return i, mindepth;
        }
        i := i + 1;
      }
      depth := mindepth;
      while true
        invariant depth < Depth(harray[bin])
        invariant forall j {:trigger harray[j]} :: 0 <= j < hashlen ==> Depth(harray[j]) > depth
        decreases Depth(harray[bin]) - depth
      {
        depth := depth + 1;
        i := 0;
        while i < hashlen
          invariant 0 <= i <= hashlen
          invariant forall j {:trigger harray[j]} :: 0 <= j < i ==> Depth(harray[j]) > depth
        {
          DepthOfUsed(harray[i]);
          var bindepth := UsedDepth(i);
          if bindepth == depth {
            assert IsLeast(harray[..], |harray[..]|, i);
            LeastBinUnique(harray[..], i);
            return i, depth;
          }
          i := i + 1;
        }
      }
    }

    /** The entry goes into its bin; the count and the high-water mark follow. */
    method Insert(bin: nat, b: Bin)
      requires bin < harray.Length
      modifies harray, `numAlloc, `highWater
      ensures harray[..] == old(harray[..])[bin := b] && numAlloc == old(numAlloc) + 1
      ensures highWater == if numAlloc > old(highWater) then numAlloc else old(highWater)
    {
      harray[bin] := b;
      numAlloc := numAlloc + 1;
      if numAlloc > highWater {
        highWater := numAlloc;
      }
    }

    /** Either rescan: the cursor for the bins as they are now. */
    method Rescan(bin: nat, ghost m: Mgr, ghost b: Bin)
      requires Inv(m) && m.next == bin && bin < hashlen && harray.Length == hashlen
      requires m == Mgr(first, last, hashlen, m.bins, next, mindepth, numAlloc - 1) && harray[..] == m.bins[bin := b]
      requires Depth(b) == mindepth + 1
      modifies `next, `mindepth
      ensures State() == Recount(m, bin, b, numAlloc)
    {
      hide DepthSum, BinOk, Depth;
      CursorBin(m);
      if last - first + 1 <= hashlen {
        SlotsBefore(m);
        forall j {:trigger harray[j]} | 0 <= j <= bin ensures harray[j].Used? {
          assert harray[..][j] == harray[j];
          if j == bin { DepthOfUsed(b); }
        }
        next := RescanSlots(bin);
      } else {
        CursorIsLeast(m);
        forall j {:trigger harray[j]} | 0 <= j < hashlen
          ensures Depth(harray[j]) >= mindepth && (j < bin ==> Depth(harray[j]) > mindepth) && (j == bin ==> Depth(harray[j]) == mindepth + 1)
        {
          assert harray[..][j] == harray[j];
        }
        next, mindepth := RescanDepths(bin);
      }
    }

    lemma DepthOfUsed(b: Bin)
      ensures Depth(b) > 0 <==> b.Used?
    {
    }

    lemma SlotsBefore(m: Mgr)
      requires Inv(m) && m.Num() <= m.hashlen && m.next != -1
      ensures 0 <= m.next < m.Num() <= |m.bins| && forall j {:trigger m.bins[j]} :: 0 <= j < m.next ==> m.bins[j].Used?
    {
    }

    /** vfi_get_event; `memory` says whether the allocation of a list node succeeds. */
    method Get(cb: nat, arg: nat, memory: bool) returns (r: int)
      requires Inv(State())
      modifies this, harray
      ensures Inv(State()) && (State(), r) == AfterGet(old(State()), cb, arg, memory)
      ensures highWater == if r != -1 && numAlloc > old(highWater) then numAlloc else old(highWater)
    {
      hide DepthSum, BinOk, Recount, LeastBin, LeastEmpty;
      ghost var m := State();
      GetKeepsInv(m, cb, arg, memory);
      if next == -1 {
        return -1;
      }
      CursorBin(m);
      var bin := next;
      var id := bin + first;
      var b := Used(Node(id, cb, arg), []);
      if mindepth != 0 {
        if !memory {
          return -1;
        }
        id := FindFreeId(bin);
        if id > last {
          next := -1;
          return -1;
        }
        b := harray[bin].(list := harray[bin].list + [Node(id, cb, arg)]);
      }
      Insert(bin, b);
      Rescan(bin, m, b);
      return id;
    }

    /** vfi_event_dispatch: which callback runs. */
    method Dispatch(id: int) returns (ran: Option<(nat, nat)>)
      requires Inv(State()) && first <= id
      ensures ran == Dispatched(State(), id)
    {
      hide DepthSum, BinOk, CursorOk;
      var bin := Rem(id - first, hashlen);
      var es := Entries(harray[bin]);
      FindIffHas(es, id);
      if harray[bin].Empty? {
        return None;
      }
      HasIdInBin(harray[bin], id);
      var event := harray[bin].slot;
      if event.id != id {
        var depth := FindInList(harray[bin].list, id);
        if depth == 0 {
          return None;
        }
        event := harray[bin].list[depth - 1];
        FindAt(es, id, depth);
      }
      if event.cb != 0 {
        return Some((event.cb, event.arg));
      }
      return None;
    }

    /** Unlink an entry: from the list, or from the slot, which the head of the list then fills. */
    method Unlink(bin: nat, id: int) returns (found: bool)
      requires bin < harray.Length && DistinctIds(Entries(harray[bin]))
      modifies harray
      ensures found <==> HasId(Entries(old(harray[bin])), id)
      ensures harray[..] == if found then old(harray[..])[bin := Without(old(harray[bin]), id)] else old(harray[..])
    {
      if harray[bin].Empty? {
        return false;
      }
      HasIdInBin(harray[bin], id);
      var list := harray[bin].list;
      var depth := FindInList(list, id);
      if depth == 0 && harray[bin].slot.id != id {
        return false;
      }
      if depth > 0 {
        assert Entries(harray[bin])[depth] == list[depth - 1] && Entries(harray[bin])[0] == harray[bin].slot;
        DroppedAt(list, id, depth - 1);
        harray[bin] := harray[bin].(list := list[..depth - 1] + list[depth..]);
      } else if list == [] {
        harray[bin] := Empty;
      } else {
        harray[bin] := Used(list[0], list[1..]);
      }
      return true;
    }

    /** The cursor after an entry left `bin`: it moves to a bin that is now shallower, or as shallow and earlier. */
    method Revisit(bin: nat, ghost m: Mgr, ghost b: Bin)
      requires Inv(m) && bin < hashlen && harray.Length == hashlen && BinOk(m, bin, b)
      requires m == Mgr(first, last, hashlen, m.bins, next, mindepth, numAlloc) && harray[..] == m.bins[bin := b]
      requires Depth(b) == Depth(m.bins[bin]) - 1
      modifies `next, `mindepth
      ensures m.next == -1 && Depth(b) >= m.mindepth ==> next == -1 && mindepth == m.mindepth
      ensures m.next != -1 || Depth(b) < m.mindepth ==> State() == Recount(m, bin, b, numAlloc)
    {
      hide DepthSum, BinOk, Depth;
      var depth := BinDepth(bin);
      assert harray[..][bin] == b;
      if depth == mindepth {
        if bin < next {
          next := bin;
        }
      } else if depth < mindepth {
        mindepth := depth;
        next := bin;
      }
      if m.next != -1 || depth < m.mindepth {
        if m.Num() <= hashlen {
          RevisitedSlots(m, bin, b, next);
        } else {
          RevisitedDepths(m, bin, b, next);
        }
      }
    }

    lemma RevisitedSlots(m: Mgr, bin: nat, b: Bin, next: int)
      requires Inv(m) && m.Num() <= m.hashlen && m.next != -1 && bin < m.hashlen && Depth(b) == Depth(m.bins[bin]) - 1
      requires next == if bin < m.next then bin else m.next
      ensures m.mindepth == 0 && Depth(b) == 0 && next == LeastEmpty(m.bins[bin := b], m.Num())
    {
      SlotsBefore(m);
      CursorBin(m);
      assert Depth(m.bins[bin]) <= 1;
      var bins := m.bins[bin := b];
      hide LeastEmpty;
      LeastEmptyUnique(bins, m.Num(), next);
    }

    lemma RevisitedDepths(m: Mgr, bin: nat, b: Bin, next: int)
      requires Inv(m) && m.Num() > m.hashlen && bin < m.hashlen && Depth(b) == Depth(m.bins[bin]) - 1
      requires m.next != -1 || Depth(b) < m.mindepth
      requires next == if (Depth(b) == m.mindepth && bin < m.next) || Depth(b) < m.mindepth then bin else m.next
      ensures next == LeastBin(m.bins[bin := b])
      ensures Depth(m.bins[bin := b][next]) == if Depth(b) < m.mindepth then Depth(b) else m.mindepth
    {
      hide Depth, DepthSum, BinOk;
      var bins := m.bins[bin := b];
      forall j {:trigger m.bins[j]} | 0 <= j < m.hashlen ensures Depth(m.bins[j]) >= m.mindepth {
      }
      if m.next != -1 {
        CursorIsLeast(m);
      }
      assert IsLeast(bins, |bins|, next);
      LeastBinUnique(bins, next);
    }

    lemma RecountOnlyCounts(m: Mgr, j: nat, b: Bin, c: int, c': int)
      requires j < |m.bins| == m.hashlen
      ensures Recount(m, j, b, c').(numAlloc := c) == Recount(m, j, b, c)
      ensures Recount(m, j, b, c).(numAlloc := c') == Recount(m, j, b, c')
    {
    }

    lemma PutIs(m: Mgr, id: int, m': Mgr)
      requires Inv(m) && m.first <= id <= m.last && HasId(Entries(m.bins[BinOf(m, id)]), id)
      requires var bin := BinOf(m, id);
               var r := Recount(m, bin, Without(m.bins[bin], id), m.numAlloc - 1);
               if m.next == -1 && Depth(m.bins[bin]) > m.mindepth then m' == r.(next := -1, mindepth := m.mindepth) else m' == r
      ensures AfterPut(m, id) == (m', 0)
    {
      hide Inv, Recount, Without, Depth, Entries, HasId;
    }

    /** vfi_put_event */
    method Put(id: int) returns (r: int)
      requires Inv(State())
      modifies this, harray
      ensures Inv(State()) && (State(), r) == AfterPut(old(State()), id)
      ensures highWater == old(highWater)
    {
      hide DepthSum, Recount, LeastBin, LeastEmpty, Without, Depth;
      ghost var m := State();
      PutKeepsInv(m, id);
      if id < first || id > last {
        return -1;
      }
      var bin := Rem(id - first, hashlen);
      BinsOk(m, bin);
      ghost var b := harray[bin];
      var found := Unlink(bin, id);
      if !found {
        return -1;
      }
      RemovedBinOk(m, bin, b, id);
      Revisit(bin, m, Without(b, id));
      RecountFields(m, bin, Without(b, id), m.numAlloc - 1);
      RecountOnlyCounts(m, bin, Without(b, id), m.numAlloc, m.numAlloc - 1);
      numAlloc := numAlloc - 1;
      PutIs(m, id, State());
      return 0;
    }
  }
}
