/**
 What the doorbell manager guarantees: it refines a finite map from event numbers to callbacks, its
 cursor always names the least of the shallowest bins, and when it reports exhaustion.
 */
module DoorbellTheorems {
  import opened Results
  import opened Division
  import opened Doorbells

  // ---- The map it refines ---------------------------------------------------------------------------------

  /** The callback and argument of the first entry numbered `id`. */
  function Find(es: seq<Node>, id: int): Option<(nat, nat)> {
    if es == [] then None else if es[0].id == id then Some((es[0].cb, es[0].arg)) else Find(es[1..], id)
  }

  lemma {:induction false} FindIffHas(es: seq<Node>, id: int)
    ensures Find(es, id).Some? <==> HasId(es, id)
  {
    if es != [] {
      HasIdTail(es, id);
      FindIffHas(es[1..], id);
    }
  }

  lemma HasIdTail(es: seq<Node>, id: int)
    requires es != []
    ensures HasId(es, id) <==> es[0].id == id || HasId(es[1..], id)
  {
    var t := es[1..];
    if HasId(es, id) && es[0].id != id {
      var i :| 0 <= i < |es| && es[i].id == id;
      assert t[i - 1].id == id;
    }
    if HasId(t, id) {
      var i :| 0 <= i < |t| && t[i].id == id;
      assert es[i + 1].id == id;
    }
  }

  ghost function Lookup(m: Mgr, id: int): Option<(nat, nat)>
    requires 0 < m.hashlen == |m.bins|
  {
    if m.first <= id <= m.last then Find(Entries(m.bins[BinOf(m, id)]), id) else None
  }

  /** Event number to callback and argument. */
  ghost function Table(m: Mgr): map<int, (nat, nat)>
    requires 0 < m.hashlen == |m.bins|
  {
    map id | m.first <= id <= m.last && Lookup(m, id).Some? :: Lookup(m, id).value
  }

  /** vfi_event_dispatch: the callback that runs, if any. */
  function Dispatched(m: Mgr, id: int): Option<(nat, nat)>
    requires 0 < m.hashlen == |m.bins| && m.first <= id
  {
    var found := Find(Entries(m.bins[BinOf(m, id)]), id);
    if found.Some? && found.value.0 != 0 then found else None
  }

  lemma InitialIsEmpty(first: int, last: int, hashlen: nat)
    requires 0 <= first <= last && hashlen > 0
    ensures Inv(Initial(first, last, hashlen)) && Table(Initial(first, last, hashlen)) == map[]
  {
    var m := Initial(first, last, hashlen);
    DepthSumOfEmpty(m.bins);
    if m.Num() > hashlen {
      assert IsLeast(m.bins, |m.bins|, 0);
      LeastBinUnique(m.bins, 0);
    } else {
      assert m.bins[0].Empty?;
    }
  }

  lemma {:induction false} DepthSumOfEmpty(bins: seq<Bin>)
    requires forall j {:trigger bins[j]} :: 0 <= j < |bins| ==> bins[j].Empty?
    ensures DepthSum(bins) == 0
  {
    if bins != [] {
      assert forall j :: 0 <= j < |bins| - 1 ==> bins[..|bins| - 1][j] == bins[j];
      DepthSumOfEmpty(bins[..|bins| - 1]);
    }
  }

  lemma {:induction false} DepthSumUpdate(bins: seq<Bin>, i: nat, b: Bin)
    requires i < |bins|
    ensures DepthSum(bins[i := b]) == DepthSum(bins) - Depth(bins[i]) + Depth(b)
  {
    hide Depth;
    var init, bins' := bins[..|bins| - 1], bins[i := b];
    if i == |bins| - 1 {
      assert bins'[..|bins'| - 1] == init;
    } else {
      DepthSumUpdate(init, i, b);
      assert bins'[..|bins'| - 1] == init[i := b] && bins'[|bins'| - 1] == bins[|bins| - 1] && init[i] == bins[i];
    }
  }

  // ---- Entries -----------------------------------------------------------------------------------------------

  lemma {:induction false} FindAppend(es: seq<Node>, n: Node, id: int)
    requires !HasId(es, n.id)
    ensures Find(es + [n], id) == if id == n.id then Some((n.cb, n.arg)) else Find(es, id)
  {
    if es == [] {
      assert es + [n] == [n];
    } else {
      assert (es + [n])[1..] == es[1..] + [n];
      HasIdTail(es, n.id);
      FindAppend(es[1..], n, id);
    }
  }

  ghost predicate DistinctIds(es: seq<Node>) { forall i, k :: 0 <= i < k < |es| ==> es[i].id != es[k].id }

  lemma DistinctTail(es: seq<Node>)
    requires es != [] && DistinctIds(es)
    ensures DistinctIds(es[1..]) && !HasId(es[1..], es[0].id)
  {
    var t := es[1..];
    forall i, k | 0 <= i < k < |t| ensures t[i].id != t[k].id {
      assert t[i] == es[i + 1] && t[k] == es[k + 1];
    }
    forall i | 0 <= i < |t| ensures t[i].id != es[0].id {
      assert t[i] == es[i + 1];
    }
  }

  /** Dropping an entry removes that number and keeps all the others. */
  lemma {:induction false} DroppedFinds(es: seq<Node>, id: int, other: int)
    requires DistinctIds(es) && HasId(es, id)
    ensures |Dropped(es, id)| == |es| - 1
    ensures Find(Dropped(es, id), other) == if other == id then None else Find(es, other)
  {
    DistinctTail(es);
    HasIdTail(es, id);
    if es[0].id == id {
      FindIffHas(es[1..], id);
    } else {
      DroppedFinds(es[1..], id, other);
      assert Dropped(es, id)[1..] == Dropped(es[1..], id);
    }
  }

  /** What is left keeps its order, so stays distinct. */
  lemma {:induction false} DroppedKeeps(es: seq<Node>, id: int)
    requires DistinctIds(es)
    ensures DistinctIds(Dropped(es, id))
    ensures forall n :: n in Dropped(es, id) ==> n in es
  {
    if es != [] {
      DistinctTail(es);
      var rest, d := Dropped(es[1..], id), Dropped(es, id);
      if es[0].id != id {
        DroppedKeeps(es[1..], id);
        forall i, k | 0 <= i < k < |d| ensures d[i].id != d[k].id {
          if i == 0 {
            assert d[k] == rest[k - 1] && rest[k - 1] in es[1..];
          } else {
            assert d[i] == rest[i - 1] && d[k] == rest[k - 1];
          }
        }
      }
    }
  }

  /** Removing an entry from a bin drops it from the bin's entries, wherever it sat. */
  lemma WithoutIsDropped(b: Bin, id: int)
    requires HasId(Entries(b), id)
    ensures Entries(Without(b, id)) == Dropped(Entries(b), id)
  {
    var es := Entries(b);
    assert es[1..] == b.list;
    if b.slot.id == id && b.list != [] {
      assert [b.list[0]] + b.list[1..] == b.list;
    }
  }

  // ---- The search for a free number ---------------------------------------------------------------------------

  /** The search stays in its residue class. */
  lemma {:induction false} FreeFromClass(es: seq<Node>, id: int, last: int, step: nat) returns (k: nat)
    requires step > 0
    ensures var r := FreeFrom(es, id, last, step); r.Some? ==> r.value == id + Times(k, step)
    decreases last - id + 1
  {
    k := 0;
    TimesZero(step);
    if id <= last && HasId(es, id) {
      var k' := FreeFromClass(es, id + step, last, step);
      k := k' + 1;
      TimesNext(k', step);
    }
  }

  /** It gives up only when the whole class is taken. */
  lemma {:induction false} FreeFromTaken(es: seq<Node>, id: int, last: int, step: nat, k: nat)
    requires step > 0 && FreeFrom(es, id, last, step).None? && id + Times(k, step) <= last
    ensures HasId(es, id + Times(k, step))
    decreases k
  {
    TimesZero(step);
    if k > 0 {
      TimesNext(k - 1, step);
      FreeFromTaken(es, id + step, last, step, k - 1);
    }
  }

  lemma TimesZero(p: nat)
    ensures Times(0, p) == 0
  {
  }

  /** Bin `j`'s numbers are first + j, first + j + hashlen, and so on. */
  lemma ClassOfBin(m: Mgr, j: nat, k: nat)
    requires j < m.hashlen
    ensures BinOf(m, m.first + j + Times(k, m.hashlen)) == j
  {
    SplitUnique(k, j, j + Times(k, m.hashlen), m.hashlen);
  }

  lemma IdInClass(m: Mgr, id: int)
    requires m.first <= id && m.hashlen > 0
    ensures id == m.first + BinOf(m, id) + Times(Quot(id - m.first, m.hashlen), m.hashlen)
  {
    Split(id - m.first, m.hashlen);
  }

  /** A set cursor points at a bin of depth `mindepth`, and at a number in range. */
  lemma CursorBin(m: Mgr)
    requires Inv(m) && m.next != -1
    ensures 0 <= m.next < m.hashlen && m.next < m.Num() && Depth(m.bins[m.next]) == m.mindepth
    ensures m.mindepth == 0 <==> m.bins[m.next].Empty?
  {
  }

  /** The number a get hands out is free, in range, and belongs to the cursor's bin. */
  lemma GetHandsOutFree(m: Mgr, cb: nat, arg: nat, memory: bool)
    requires Inv(m) && AfterGet(m, cb, arg, memory).1 != -1
    ensures m.next != -1 && 0 <= m.next < m.hashlen
    ensures var id := AfterGet(m, cb, arg, memory).1;
            m.first <= id <= m.last && BinOf(m, id) == m.next && !HasId(Entries(m.bins[m.next]), id)
  {
    hide Recount, DepthSum, BinOk, BinOf, LeastBin, Times, Rem;
    CursorBin(m);
    if m.mindepth == 0 {
      TimesZero(m.hashlen);
      ClassOfBin(m, m.next, 0);
    } else {
      var k := FreeFromClass(Entries(m.bins[m.next]), m.next + m.first, m.last, m.hashlen);
      ClassOfBin(m, m.next, k);
    }
  }

  // ---- Every operation keeps the invariant ------------------------------------------------------------------------

  /** Replacing one bin by a well-formed one and finding the cursor anew keeps the invariant. */
  lemma RecountInv(m: Mgr, j: nat, b: Bin, count: int)
    requires Inv(m) && j < m.hashlen && BinOk(m, j, b)
    requires count == m.numAlloc - Depth(m.bins[j]) + Depth(b)
    requires m.Num() <= m.hashlen ==> Depth(b) <= 1
    ensures Inv(Recount(m, j, b, count))
  {
    hide BinOk, DepthSum, LeastEmpty, LeastBin, Depth;
    SameShape(m, Recount(m, j, b, count), j, b);
    RecountCursor(m, j, b, count);
  }

  lemma RecountCursor(m: Mgr, j: nat, b: Bin, count: int)
    requires 0 < m.hashlen == |m.bins| && m.Num() > 0 && CursorOk(m) && j < m.hashlen
    requires m.Num() <= m.hashlen ==> Depth(b) <= 1
    ensures CursorOk(Recount(m, j, b, count))
  {
    hide Depth, LeastEmpty;
    var bins := m.bins[j := b];
    assert m.Num() > m.hashlen ==> IsLeast(bins, |bins|, LeastBin(bins));
  }

  /** Shape is judged by range, hash length, bins and count alone. */
  lemma SameShape(m: Mgr, m': Mgr, j: nat, b: Bin)
    requires Shape(m) && j < m.hashlen && BinOk(m, j, b)
    requires m.first == m'.first && m.last == m'.last && m.hashlen == m'.hashlen && m'.bins == m.bins[j := b]
    requires m'.numAlloc == m.numAlloc - Depth(m.bins[j]) + Depth(b)
    ensures Shape(m')
  {
    DepthSumUpdate(m.bins, j, b);
    hide DepthSum, Depth;
    forall i {:trigger m'.bins[i]} | 0 <= i < m'.hashlen ensures BinOk(m', i, m'.bins[i]) {
      SameBin(m, m', i, m'.bins[i]);
    }
  }

  lemma SameBin(m: Mgr, m': Mgr, j: nat, b: Bin)
    requires m.first == m'.first && m.last == m'.last && m.hashlen == m'.hashlen > 0
    requires BinOk(m, j, b)
    ensures BinOk(m', j, b)
  {
  }

  lemma ClearedInv(m: Mgr)
    requires Inv(m)
    ensures Inv(m.(next := -1))
  {
    assert m.bins[0 := m.bins[0]] == m.bins;
    SameShape(m, m.(next := -1), 0, m.bins[0]);
    hide Shape, Depth;
  }

  /** A successful get adds one entry to the cursor's bin. */
  lemma GetAddsEntry(m: Mgr, cb: nat, arg: nat, memory: bool) returns (b: Bin)
    requires Inv(m) && AfterGet(m, cb, arg, memory).1 != -1
    ensures 0 <= m.next < m.hashlen
    ensures var (m', id) := AfterGet(m, cb, arg, memory);
            && m' == Recount(m, m.next, b, m.numAlloc + 1)
            && Entries(b) == Entries(m.bins[m.next]) + [Node(id, cb, arg)]
            && (m.Num() <= m.hashlen ==> Depth(b) <= 1)
            && BinOk(m, m.next, b)
  {
    hide Recount, BinOf, DepthSum, LeastBin, LeastEmpty, FreeFrom;
    GetHandsOutFree(m, cb, arg, memory);
    CursorBin(m);
    var id := AfterGet(m, cb, arg, memory).1;
    var was, n := m.bins[m.next], Node(id, cb, arg);
    b := if m.mindepth == 0 then Used(n, []) else was.(list := was.list + [n]);
    assert BinOk(m, m.next, was) by { BinsOk(m, m.next); }
    AddedBinOk(m, m.next, was, b, n);
  }

  lemma BinsOk(m: Mgr, j: nat)
    requires Shape(m) && j < m.hashlen
    ensures BinOk(m, j, m.bins[j])
  {
  }

  lemma GetKeepsInv(m: Mgr, cb: nat, arg: nat, memory: bool)
    requires Inv(m)
    ensures Inv(AfterGet(m, cb, arg, memory).0)
  {
    hide Recount, Inv, BinOk, FreeFrom;
    if AfterGet(m, cb, arg, memory).1 != -1 {
      var b := GetAddsEntry(m, cb, arg, memory);
      RecountInv(m, m.next, b, m.numAlloc + 1);
    } else {
      FailedGet(m, cb, arg, memory);
      ClearedInv(m);
    }
  }

  lemma FailedGet(m: Mgr, cb: nat, arg: nat, memory: bool)
    requires Inv(m) && AfterGet(m, cb, arg, memory).1 == -1
    ensures AfterGet(m, cb, arg, memory).0 == m || AfterGet(m, cb, arg, memory).0 == m.(next := -1)
  {
  }

  lemma AddedBinOk(m: Mgr, j: nat, b: Bin, b': Bin, n: Node)
    requires m.hashlen > 0 && BinOk(m, j, b) && Entries(b') == Entries(b) + [n]
    requires m.first <= n.id <= m.last && BinOf(m, n.id) == j && !HasId(Entries(b), n.id)
    ensures BinOk(m, j, b')
  {
    hide BinOf;
    var es, es' := Entries(b), Entries(b');
    hide Entries;
    forall i {:trigger es'[i]} | 0 <= i < |es'| ensures m.first <= es'[i].id <= m.last && BinOf(m, es'[i].id) == j {
      if i < |es| { assert es'[i] == es[i]; }
    }
    forall i, k | 0 <= i < k < |es'| ensures es'[i].id != es'[k].id {
      assert es'[i] == es[i];
      if k < |es| { assert es'[k] == es[k]; }
    }
  }

  lemma RemovedBinOk(m: Mgr, j: nat, b: Bin, id: int)
    requires m.hashlen > 0 && BinOk(m, j, b) && HasId(Entries(b), id)
    ensures BinOk(m, j, Without(b, id)) && Depth(Without(b, id)) == Depth(b) - 1
  {
    hide BinOf, Entries, Dropped, Without, HasId, Find;
    var es := Entries(b);
    WithoutIsDropped(b, id);
    DroppedKeeps(es, id);
    DroppedFinds(es, id, id);
    var d := Dropped(es, id);
    forall i {:trigger d[i]} | 0 <= i < |d| ensures m.first <= d[i].id <= m.last && BinOf(m, d[i].id) == j {
      assert d[i] in d;
      var k :| 0 <= k < |es| && es[k] == d[i];
    }
  }

  lemma PutKeepsInv(m: Mgr, id: int)
    requires Inv(m)
    ensures Inv(AfterPut(m, id).0)
  {
    hide Inv, BinOk, Recount, Without, Depth, Entries, HasId, BinOf;
    BinsAreFlat(m);
    if m.first <= id <= m.last && HasId(Entries(m.bins[BinOf(m, id)]), id) {
      var j := BinOf(m, id);
      var b := Without(m.bins[j], id);
      RemovedBinOk(m, j, m.bins[j], id);
      RecountInv(m, j, b, m.numAlloc - 1);
      if m.next == -1 && Depth(m.bins[j]) > m.mindepth {
        StuckInv(m, j, b);
      }
    }
  }

  lemma BinsAreFlat(m: Mgr)
    requires Inv(m)
    ensures 0 < m.hashlen == |m.bins|
    ensures forall id :: m.first <= id ==> BinOf(m, id) < m.hashlen
    ensures forall j {:trigger m.bins[j]} :: 0 <= j < m.hashlen ==>
              BinOk(m, j, m.bins[j]) && (m.Num() <= m.hashlen ==> Depth(m.bins[j]) <= 1)
  {
    hide BinOk, Depth, DepthSum, LeastBin, LeastEmpty;
  }

  /** A put that leaves its bin at `mindepth` or deeper keeps the invariant even with the cursor unset. */
  lemma StuckInv(m: Mgr, j: nat, b: Bin)
    requires Inv(m) && j < m.hashlen && m.mindepth <= Depth(b) && BinOk(m, j, b) && Depth(b) == Depth(m.bins[j]) - 1
    ensures Inv(Recount(m, j, b, m.numAlloc - 1).(next := -1, mindepth := m.mindepth))
  {
    SameShape(m, Recount(m, j, b, m.numAlloc - 1).(next := -1, mindepth := m.mindepth), j, b);
    hide Shape, Depth;
  }

  // ---- Refinement of the map --------------------------------------------------------------------------------------

  /** Changing one bin changes the lookups that hash to it, and no other. */
  lemma LookupAfterRecount(m: Mgr, m': Mgr, j: nat, b: Bin, id: int)
    requires 0 < m.hashlen == |m.bins| && j < m.hashlen && m'.bins == m.bins[j := b]
    requires m.first == m'.first && m.last == m'.last && m.hashlen == m'.hashlen
    ensures m.first <= id <= m.last ==>
              Lookup(m', id) == if BinOf(m, id) == j then Find(Entries(b), id) else Lookup(m, id)
  {
  }

  lemma RecountFields(m: Mgr, j: nat, b: Bin, count: int)
    requires j < |m.bins| == m.hashlen
    ensures var m' := Recount(m, j, b, count);
            && m'.bins == m.bins[j := b] && m'.numAlloc == count
            && m'.first == m.first && m'.last == m.last && m'.hashlen == m.hashlen
  {
  }

  lemma LookupAfterGet(m: Mgr, cb: nat, arg: nat, memory: bool, k: int)
    requires Inv(m) && AfterGet(m, cb, arg, memory).1 != -1
    ensures var (m', id) := AfterGet(m, cb, arg, memory);
            && m.first <= id <= m.last && m'.numAlloc == m.numAlloc + 1
            && |m'.bins| == m'.hashlen == m.hashlen && m'.first == m.first && m'.last == m.last
            && Lookup(m, id) == None
            && Lookup(m', k) == if k == id then Some((cb, arg)) else Lookup(m, k)
  {
    var (m', id) := AfterGet(m, cb, arg, memory);
    var b := GetAddsEntry(m, cb, arg, memory);
    GetHandsOutFree(m, cb, arg, memory);
    RecountFields(m, m.next, b, m.numAlloc + 1);
    var was := Entries(m.bins[m.next]);
    FindIffHas(was, id);
    FindAppend(was, Node(id, cb, arg), k);
    hide AfterGet, Recount, Shape, CursorOk, BinOk, Find, BinOf, Entries;
    LookupAfterRecount(m, m', m.next, b, k);
  }

  lemma LookupAfterPut(m: Mgr, id: int, k: int)
    requires Inv(m) && AfterPut(m, id).1 == 0
    ensures var m' := AfterPut(m, id).0;
            && m.first <= id <= m.last && m'.numAlloc == m.numAlloc - 1
            && |m'.bins| == m'.hashlen == m.hashlen && m'.first == m.first && m'.last == m.last
            && Lookup(m', k) == if k == id then None else Lookup(m, k)
  {
    var m' := AfterPut(m, id).0;
    var j := BinOf(m, id);
    var b := Without(m.bins[j], id);
    var was := Entries(m.bins[j]);
    RecountFields(m, j, b, m.numAlloc - 1);
    WithoutIsDropped(m.bins[j], id);
    BinsOk(m, j);
    DroppedFinds(was, id, k);
    hide Recount, Shape, CursorOk, BinOk, Find, BinOf, Entries, Without, Dropped;
    LookupAfterRecount(m, m', j, b, k);
  }

  lemma TableAt(m: Mgr, k: int)
    requires 0 < m.hashlen == |m.bins|
    ensures k in Table(m) <==> Lookup(m, k).Some?
    ensures k in Table(m) ==> Table(m)[k] == Lookup(m, k).value
  {
    hide Find, BinOf, Entries;
  }

  /** Two states whose lookups agree but for `id` have tables that agree but for `id`. */
  lemma TableDiffers(m: Mgr, m': Mgr, id: int, v: Option<(nat, nat)>)
    requires 0 < m.hashlen == |m.bins| && 0 < m'.hashlen == |m'.bins|
    requires forall k :: Lookup(m', k) == if k == id then v else Lookup(m, k)
    ensures Table(m') == if v.Some? then Table(m)[id := v.value] else Table(m) - {id}
  {
    hide Lookup, Table;
    var t, t' := Table(m), Table(m');
    forall k ensures k in t' <==> if k == id then v.Some? else k in t {
      TableAt(m, k);
      TableAt(m', k);
    }
    forall k | k in t' ensures t'[k] == if k == id then v.value else t[k] {
      TableAt(m, k);
      TableAt(m', k);
    }
  }

  /** A number that a get returns is in range and was not allocated; it now maps to the caller's callback. */
  lemma GetRefinesMap(m: Mgr, cb: nat, arg: nat, memory: bool)
    requires Inv(m)
    ensures var (m', id) := AfterGet(m, cb, arg, memory);
            && |m'.bins| == m'.hashlen > 0
            && (id == -1 ==> Table(m') == Table(m) && m'.numAlloc == m.numAlloc)
            && (id != -1 ==> m.first <= id <= m.last && id !in Table(m)
                             && Table(m') == Table(m)[id := (cb, arg)] && m'.numAlloc == m.numAlloc + 1)
  {
    var (m', id) := AfterGet(m, cb, arg, memory);
    if id != -1 {
      LookupAfterGet(m, cb, arg, memory, id);
      TableAt(m, id);
      hide AfterGet, Lookup, Table, Shape, CursorOk;
      forall k ensures Lookup(m', k) == if k == id then Some((cb, arg)) else Lookup(m, k) {
        LookupAfterGet(m, cb, arg, memory, k);
      }
      TableDiffers(m, m', id, Some((cb, arg)));
    } else {
      FailedGetKeepsTable(m, cb, arg, memory);
    }
  }

  lemma FailedGetKeepsTable(m: Mgr, cb: nat, arg: nat, memory: bool)
    requires Inv(m) && AfterGet(m, cb, arg, memory).1 == -1
    ensures var m' := AfterGet(m, cb, arg, memory).0;
            |m'.bins| == m'.hashlen > 0 && Table(m') == Table(m) && m'.numAlloc == m.numAlloc
  {
    FailedGet(m, cb, arg, memory);
    SameTable(m);
    hide AfterGet, Table;
  }

  lemma SameTable(m: Mgr)
    requires 0 < m.hashlen == |m.bins|
    ensures Table(m.(next := -1)) == Table(m)
  {
    var m' := m.(next := -1);
    forall k ensures Lookup(m', k) == Lookup(m, k) {
      SameLookup(m, k);
    }
    hide Lookup, Table;
    var t, t' := Table(m), Table(m');
    forall k ensures k in t' <==> k in t {
      TableAt(m, k);
      TableAt(m', k);
    }
    forall k | k in t' ensures t'[k] == t[k] {
      TableAt(m, k);
      TableAt(m', k);
    }
  }

  lemma SameLookup(m: Mgr, k: int)
    requires 0 < m.hashlen == |m.bins|
    ensures Lookup(m.(next := -1), k) == Lookup(m, k)
  {
  }

  /** A put succeeds exactly on allocated numbers, and removes that number only. */
  lemma PutRefinesMap(m: Mgr, id: int)
    requires Inv(m)
    ensures var (m', r) := AfterPut(m, id);
            && |m'.bins| == m'.hashlen > 0 && r in {0, -1}
            && (r == 0 <==> id in Table(m))
            && (r == 0 ==> Table(m') == Table(m) - {id} && m'.numAlloc == m.numAlloc - 1)
            && (r == -1 ==> m' == m)
  {
    var (m', r) := AfterPut(m, id);
    PutSucceedsOnAllocated(m, id);
    TableAt(m, id);
    if r == 0 {
      LookupAfterPut(m, id, id);
      hide AfterPut, Lookup, Table, Shape, CursorOk;
      forall k ensures Lookup(m', k) == if k == id then None else Lookup(m, k) {
        LookupAfterPut(m, id, k);
      }
      TableDiffers(m, m', id, None);
    }
  }

  lemma PutSucceedsOnAllocated(m: Mgr, id: int)
    requires Inv(m)
    ensures AfterPut(m, id).1 in {0, -1} && (AfterPut(m, id).1 == -1 ==> AfterPut(m, id).0 == m)
    ensures AfterPut(m, id).1 == 0 <==> Lookup(m, id).Some?
  {
    if m.first <= id <= m.last {
      FindIffHas(Entries(m.bins[BinOf(m, id)]), id);
    }
  }

  /** Dispatch runs exactly the mapped callback, unless that is NULL. */
  lemma DispatchRunsMapped(m: Mgr, id: int)
    requires Inv(m) && m.first <= id
    ensures Dispatched(m, id) == if id in Table(m) && Table(m)[id].0 != 0 then Some(Table(m)[id]) else None
  {
    if id > m.last {
      var es := Entries(m.bins[BinOf(m, id)]);
      BinsOk(m, BinOf(m, id));
      FindIffHas(es, id);
    }
  }

  // ---- Exhaustion ---------------------------------------------------------------------------------------------------

  /** How many numbers hash to bin `j`. */
  function Capacity(m: Mgr, j: nat): nat
    requires m.hashlen > 0
  {
    if m.first + j > m.last then 0 else Quot(m.last - m.first - j, m.hashlen) + 1
  }

  /** The first `n` numbers of bin `j`. */
  ghost function ClassIds(m: Mgr, j: nat, n: nat): set<int> {
    if n == 0 then {} else ClassIds(m, j, n - 1) + {m.first + j + Times(n - 1, m.hashlen)}
  }

  lemma {:induction false} ClassIdsBelow(m: Mgr, j: nat, n: nat)
    requires m.hashlen > 0
    ensures |ClassIds(m, j, n)| == n
    ensures forall id :: id in ClassIds(m, j, n) ==> id < m.first + j + Times(n, m.hashlen)
  {
    hide Times;
    if n > 0 {
      ClassIdsBelow(m, j, n - 1);
      TimesNext(n - 1, m.hashlen);
    }
  }

  lemma {:induction false} ClassIdsHave(m: Mgr, j: nat, n: nat, k: nat)
    requires k < n
    ensures m.first + j + Times(k, m.hashlen) in ClassIds(m, j, n)
  {
    hide Times;
    if k < n - 1 {
      ClassIdsHave(m, j, n - 1, k);
    }
  }

  ghost function Ids(es: seq<Node>): set<int> { set i | 0 <= i < |es| :: es[i].id }

  lemma IdsLast(es: seq<Node>)
    requires es != []
    ensures Ids(es) == Ids(es[..|es| - 1]) + {es[|es| - 1].id}
  {
    var init := es[..|es| - 1];
    forall id | id in Ids(es) ensures id in Ids(init) + {es[|es| - 1].id} {
      var i :| 0 <= i < |es| && es[i].id == id;
      if i < |init| { assert init[i].id == id; }
    }
    forall id | id in Ids(init) ensures id in Ids(es) {
      var i :| 0 <= i < |init| && init[i].id == id;
      assert es[i].id == id;
    }
    assert es[|es| - 1].id in Ids(es);
  }

  lemma {:induction false} IdsCount(es: seq<Node>)
    requires DistinctIds(es)
    ensures |Ids(es)| == |es|
  {
    if es != [] {
      var init, end := es[..|es| - 1], es[|es| - 1];
      IdsLast(es);
      forall i, k | 0 <= i < k < |init| ensures init[i].id != init[k].id {
        assert init[i] == es[i] && init[k] == es[k];
      }
      IdsCount(init);
      assert end.id !in Ids(init) by {
        forall i | 0 <= i < |init| ensures init[i].id != end.id {
          assert init[i] == es[i];
        }
      }
      hide Ids;
    }
  }

  /** Every number in range that hashes to `j` is among the bin's first Capacity numbers. */
  lemma InClassIds(m: Mgr, j: nat, id: int)
    requires m.hashlen > 0 && m.first <= id <= m.last && BinOf(m, id) == j
    ensures id in ClassIds(m, j, Capacity(m, j))
  {
    var k := Quot(id - m.first, m.hashlen);
    IdInClass(m, id);
    TimesZero(m.hashlen);
    var top := m.last - m.first - j;
    SplitUnique(k, 0, Times(k, m.hashlen), m.hashlen);
    QuotMonotone(Times(k, m.hashlen), top, m.hashlen);
    ClassIdsHave(m, j, Capacity(m, j), k);
  }

  /** A bin never holds more than its capacity, and at capacity it holds every number that hashes to it. */
  lemma DepthWithinCapacity(m: Mgr, j: nat)
    requires Shape(m) && j < m.hashlen
    ensures Depth(m.bins[j]) <= Capacity(m, j)
    ensures Depth(m.bins[j]) == Capacity(m, j) ==> forall id :: m.first <= id <= m.last && BinOf(m, id) == j ==> HasId(Entries(m.bins[j]), id)
  {
    BinsOk(m, j);
    var es := Entries(m.bins[j]);
    IdsCount(es);
    ClassIdsBelow(m, j, Capacity(m, j));
    var a, b := Ids(es), ClassIds(m, j, Capacity(m, j));
    assert a <= b by {
      forall id | id in a ensures id in b {
        var i :| 0 <= i < |es| && es[i].id == id;
        InClassIds(m, j, es[i].id);
      }
    }
    hide ClassIds, Capacity, Shape, BinOk, BinOf;
    SubsetSize(a, b);
    if |es| == |b| {
      forall id | m.first <= id <= m.last && BinOf(m, id) == j ensures HasId(es, id) {
        InClassIds(m, j, id);
        assert id in a;
        var i :| 0 <= i < |es| && es[i].id == id;
      }
    }
  }

  lemma SubsetSize(a: set<int>, b: set<int>)
    requires a <= b
    ensures |a| <= |b| && (|a| == |b| ==> a == b)
  {
    assert b == a + (b - a);
    assert |b| == |a| + |b - a|;
  }

  /** When the search finds nothing the bin is at capacity. */
  lemma SearchFailsAtCapacity(m: Mgr, j: nat)
    requires Shape(m) && j < m.hashlen && FreeFrom(Entries(m.bins[j]), j + m.first, m.last, m.hashlen).None?
    ensures Depth(m.bins[j]) >= Capacity(m, j)
  {
    var es, n := Entries(m.bins[j]), Capacity(m, j);
    BinsOk(m, j);
    IdsCount(es);
    ClassIdsBelow(m, j, n);
    ClassTaken(m, j, n, es);
    SubsetSize(ClassIds(m, j, n), Ids(es));
  }

  lemma {:induction false} ClassTaken(m: Mgr, j: nat, n: nat, es: seq<Node>)
    requires m.hashlen > 0 && n <= Capacity(m, j)
    requires FreeFrom(es, j + m.first, m.last, m.hashlen).None?
    ensures ClassIds(m, j, n) <= Ids(es)
  {
    if n > 0 {
      ClassTaken(m, j, n - 1, es);
      var top := m.last - m.first - j;
      Split(top, m.hashlen);
      if n - 1 < Quot(top, m.hashlen) {
        TimesStep(n - 1, Quot(top, m.hashlen), m.hashlen);
      }
      FreeFromTaken(es, j + m.first, m.last, m.hashlen, n - 1);
      assert HasId(es, j + m.first + Times(n - 1, m.hashlen));
    }
  }

  /** Capacities fall with the bin, and by one at most. */
  lemma CapacitiesClose(m: Mgr, j: nat, k: nat)
    requires m.first >= 0 && j < k < m.hashlen < m.Num()
    ensures Capacity(m, k) <= Capacity(m, j) <= Capacity(m, k) + 1
  {
    var a, b := m.last - m.first - k, m.last - m.first - j;
    QuotMonotone(a, b, m.hashlen);
    QuotMonotone(b, a + m.hashlen, m.hashlen);
    Split(a, m.hashlen);
    TimesNext(Quot(a, m.hashlen), m.hashlen);
    SplitUnique(Quot(a, m.hashlen) + 1, Rem(a, m.hashlen), a + m.hashlen, m.hashlen);
  }

  lemma CursorIsLeast(m: Mgr)
    requires Inv(m) && m.Num() > m.hashlen && m.next != -1
    ensures 0 <= m.next && IsLeast(m.bins, |m.bins|, m.next)
  {
  }

  /** With the cursor set, a failed search in its bin means that every bin is at capacity. */
  lemma OneFullBinMeansAllFull(m: Mgr, j: nat)
    requires Inv(m) && m.Num() > m.hashlen && m.next != -1 && j < m.hashlen
    requires 0 <= m.next < m.hashlen && FreeFrom(Entries(m.bins[m.next]), m.next + m.first, m.last, m.hashlen).None?
    ensures Depth(m.bins[j]) == Capacity(m, j)
  {
    var n := m.next;
    hide Capacity, Depth, FreeFrom, BinOk, DepthSum, LeastBin, Quot;
    SearchFailsAtCapacity(m, n);
    DepthWithinCapacity(m, n);
    DepthWithinCapacity(m, j);
    if n < j {
      CapacitiesClose(m, n, j);
    } else if j < n {
      CapacitiesClose(m, j, n);
    }
    CursorIsLeast(m);
  }

  ghost predicate AllAllocated(m: Mgr)
    requires 0 < m.hashlen == |m.bins|
  {
    forall id :: m.first <= id <= m.last ==> id in Table(m)
  }

  /**
   With the cursor set, get reports exhaustion if and only if every number of the whole range is
   allocated, although it inspects a single bin and bins have unequal capacity.
   */
  lemma ExhaustionIsExact(m: Mgr, cb: nat, arg: nat)
    requires Inv(m) && m.next != -1
    ensures AfterGet(m, cb, arg, true).1 == -1 <==> AllAllocated(m)
  {
    if AfterGet(m, cb, arg, true).1 != -1 {
      GetRefinesMap(m, cb, arg, true);
    } else {
      FailedSearch(m, cb, arg);
      forall id | m.first <= id <= m.last ensures id in Table(m) {
        var j := BinOf(m, id);
        OneFullBinMeansAllFull(m, j);
        DepthWithinCapacity(m, j);
        FindIffHas(Entries(m.bins[j]), id);
        TableAt(m, id);
      }
    }
  }

  lemma FailedSearch(m: Mgr, cb: nat, arg: nat)
    requires Inv(m) && m.next != -1 && AfterGet(m, cb, arg, true).1 == -1
    ensures m.Num() > m.hashlen && 0 <= m.next < m.hashlen && m.mindepth != 0
    ensures FreeFrom(Entries(m.bins[m.next]), m.next + m.first, m.last, m.hashlen).None?
    ensures AfterGet(m, cb, arg, true).0 == m.(next := -1)
  {
    hide Recount, BinOk, DepthSum, LeastBin, LeastEmpty;
    CursorBin(m);
    SmallNeverFails(m);
  }

  /** The table without lists: every bin holds one number, so a set cursor can always allocate. */
  lemma SmallNeverFails(m: Mgr)
    requires Inv(m)
    ensures m.mindepth != 0 ==> m.Num() > m.hashlen
  {
  }

  // ---- Balance --------------------------------------------------------------------------------------------------------

  lemma {:induction false} DepthSumAtLeast(bins: seq<Bin>, d: nat)
    requires forall j {:trigger bins[j]} :: 0 <= j < |bins| ==> Depth(bins[j]) >= d
    ensures DepthSum(bins) >= Times(|bins|, d)
  {
    hide Depth;
    if bins == [] {
      TimesZero(d);
    } else {
      var init := bins[..|bins| - 1];
      assert forall j {:trigger init[j]} :: 0 <= j < |init| ==> init[j] == bins[j];
      DepthSumAtLeast(init, d);
      TimesNext(|init|, d);
    }
  }

  /** A new entry always goes into a bin no deeper than the average bin. */
  lemma NewEntriesGoShallow(m: Mgr)
    requires Inv(m) && m.next != -1 && m.Num() > m.hashlen
    ensures 0 <= m.next < m.hashlen && Times(m.hashlen, Depth(m.bins[m.next])) <= m.numAlloc
  {
    CursorBin(m);
    DepthSumAtLeast(m.bins, m.mindepth);
  }

  // ---- After exhaustion ---------------------------------------------------------------------------------------------------

  /** What a get replies right after a put. */
  function GetAfterPut(m: Mgr, id: int, cb: nat, arg: nat): int
    requires Inv(m)
  {
    PutKeepsInv(m, id);
    AfterGet(AfterPut(m, id).0, cb, arg, true).1
  }

  /**
   Exhaustion unsets the cursor, and only some puts set it again: exactly those whose bin was no
   deeper than `mindepth`.  After any other put a number is free, and get still reports exhaustion.
   */
  lemma PutRevivesIff(m: Mgr, id: int, cb: nat, arg: nat)
    requires Inv(m) && m.next == -1 && id in Table(m)
    ensures m.first <= id <= m.last
    ensures var m' := AfterPut(m, id).0;
            && |m'.bins| == m'.hashlen > 0 && id !in Table(m')
            && (GetAfterPut(m, id, cb, arg) != -1 <==> Depth(m.bins[BinOf(m, id)]) <= m.mindepth)
  {
    var m' := AfterPut(m, id).0;
    PutRefinesMap(m, id);
    PutKeepsInv(m, id);
    TableAt(m, id);
    CursorAfterPut(m, id);
    if m'.next != -1 {
      ExhaustionIsExact(m', cb, arg);
      RangeAfterPut(m, id);
    }
  }

  lemma RangeAfterPut(m: Mgr, id: int)
    requires Inv(m)
    ensures AfterPut(m, id).0.first == m.first && AfterPut(m, id).0.last == m.last && AfterPut(m, id).0.hashlen == m.hashlen
  {
  }

  lemma CursorAfterPut(m: Mgr, id: int)
    requires Inv(m) && m.next == -1 && AfterPut(m, id).1 == 0
    ensures m.first <= id <= m.last
    ensures AfterPut(m, id).0.next != -1 <==> Depth(m.bins[BinOf(m, id)]) <= m.mindepth
  {
    var j := BinOf(m, id);
    var b := Without(m.bins[j], id);
    BinsOk(m, j);
    RemovedBinOk(m, j, m.bins[j], id);
    if m.Num() <= m.hashlen {
      assert Depth(m.bins[j]) == 1;
    } else {
      assert Recount(m, j, b, m.numAlloc - 1).next == LeastBin(m.bins[j := b]);
    }
  }

  /** Where every number has its own bin, no put ever revives an exhausted manager. */
  lemma {:induction false} SmallTableStaysExhausted(m: Mgr, cmds: seq<Cmd>)
    requires Inv(m) && m.Num() <= m.hashlen && m.next == -1
    ensures Inv(Run(m, cmds)) && Run(m, cmds).next == -1
    decreases |cmds|
  {
    if cmds != [] {
      var m' := Step(m, cmds[0]);
      match cmds[0] {
        case Get(cb, arg, memory) =>
        case Put(id) =>
          PutKeepsInv(m, id);
          RangeAfterPut(m, id);
          if AfterPut(m, id).1 == 0 {
            SmallBinsHoldOne(m, id);
            CursorAfterPut(m, id);
          } else {
            PutSucceedsOnAllocated(m, id);
          }
      }
      SmallTableStaysExhausted(m', cmds[1..]);
    }
  }

  lemma SmallBinsHoldOne(m: Mgr, id: int)
    requires Inv(m) && m.Num() <= m.hashlen && AfterPut(m, id).1 == 0
    ensures m.first <= id && Depth(m.bins[BinOf(m, id)]) == 1 && m.mindepth == 0
  {
  }

  /**
   Exactly which numbers revive a manager that has just reported exhaustion: those of bins with the
   least capacity.
   */
  lemma RevivingNumbers(m: Mgr, id: int, cb: nat, arg: nat)
    requires Inv(m) && m.next != -1 && AfterGet(m, cb, arg, true).1 == -1 && m.first <= id <= m.last
    ensures var full := AfterGet(m, cb, arg, true).0;
            Inv(full) && (GetAfterPut(full, id, cb, arg) != -1 <==> Capacity(m, BinOf(m, id)) == Capacity(m, m.hashlen - 1))
  {
    hide GetAfterPut, Capacity, Depth, FreeFrom, BinOk, DepthSum, LeastBin, LeastEmpty, Recount, BinOf, Table, Lookup;
    FailedSearch(m, cb, arg);
    ClearedInv(m);
    ExhaustionIsExact(m, cb, arg);
    SameTable(m);
    var full := m.(next := -1);
    PutRevivesIff(full, id, cb, arg);
    SameBinOf(m, id);
    FullDepths(m, BinOf(m, id));
  }

  lemma SameBinOf(m: Mgr, id: int)
    requires m.first <= id && m.hashlen > 0
    ensures BinOf(m.(next := -1), id) == BinOf(m, id) < m.hashlen
  {
  }

  /** When all bins are full, `mindepth` is the least capacity, which is the last bin's. */
  lemma FullDepths(m: Mgr, j: nat)
    requires Inv(m) && m.Num() > m.hashlen && m.next != -1 && 0 <= m.next < m.hashlen && j < m.hashlen
    requires FreeFrom(Entries(m.bins[m.next]), m.next + m.first, m.last, m.hashlen).None?
    ensures Depth(m.bins[j]) <= m.mindepth <==> Capacity(m, j) == Capacity(m, m.hashlen - 1)
  {
    hide Capacity, Depth, FreeFrom, BinOk, DepthSum, LeastBin;
    OneFullBinMeansAllFull(m, j);
    OneFullBinMeansAllFull(m, m.next);
    OneFullBinMeansAllFull(m, m.hashlen - 1);
    CursorBin(m);
    CursorIsLeast(m);
    if j < m.hashlen - 1 { CapacitiesClose(m, j, m.hashlen - 1); }
    if m.next < m.hashlen - 1 { CapacitiesClose(m, m.next, m.hashlen - 1); }
    assert Depth(m.bins[m.hashlen - 1]) >= Depth(m.bins[m.next]);
  }

  /**
   The RapidIO doorbells 0x2000 to 0x4000 in 256 bins: 8193 numbers, so bin 0 holds 33 and every other
   bin 32.  Once all are taken, freeing a number of bin 0 leaves the manager reporting exhaustion.
   */
  lemma ShippedDoorbellsTrap(m: Mgr, id: int, cb: nat, arg: nat)
    requires Inv(m) && m.first == 0x2000 && m.last == 0x4000 && m.hashlen == 256
    requires m.next != -1 && AfterGet(m, cb, arg, true).1 == -1 && m.first <= id <= m.last
    ensures var full := AfterGet(m, cb, arg, true).0;
            Inv(full) && (GetAfterPut(full, id, cb, arg) == -1 <==> (id - 0x2000) % 256 == 0)
  {
    hide GetAfterPut, Inv, AfterGet;
    RevivingNumbers(m, id, cb, arg);
  }

  /** Three numbers in two bins, all allocated: bin 0 holds 0 and 2, bin 1 holds 1, and the cursor is at bin 1. */
  const ALL_TAKEN := Mgr(0, 2, 2, [Used(Node(0, 1, 0), [Node(2, 3, 0)]), Used(Node(1, 2, 0), [])], 1, 1, 3)

  /** The smallest trap: get reports exhaustion, 0 is freed, and get still reports exhaustion. */
  lemma SmallestTrap(cb: nat, arg: nat)
    ensures Inv(ALL_TAKEN) && AfterGet(ALL_TAKEN, cb, arg, true).1 == -1
    ensures var full := AfterGet(ALL_TAKEN, cb, arg, true).0;
            Inv(full) && GetAfterPut(full, 0, cb, arg) == -1
  {
    AllTakenGet(cb, arg);
    SplitUnique(0, 0, 0, 2);
    SplitUnique(1, 0, 2, 2);
    SplitUnique(0, 1, 1, 2);
    hide Inv, AfterGet, GetAfterPut, Quot, Rem;
    RevivingNumbers(ALL_TAKEN, 0, cb, arg);
  }

  lemma AllTakenGet(cb: nat, arg: nat)
    ensures Inv(ALL_TAKEN) && ALL_TAKEN.next != -1 && AfterGet(ALL_TAKEN, cb, arg, true).1 == -1
  {
    AllTakenInv();
    hide Inv;
    var es := Entries(ALL_TAKEN.bins[1]);
    assert es[0].id == 1 && HasId(es, 1);
    assert FreeFrom(es, 1, 2, 2) == FreeFrom(es, 3, 2, 2) == None;
  }

  lemma AllTakenInv()
    ensures Inv(ALL_TAKEN)
  {
    hide Shape, CursorOk;
    AllTakenShape();
    AllTakenCursor();
  }

  lemma AllTakenShape()
    ensures Shape(ALL_TAKEN)
  {
    var m := ALL_TAKEN;
    SplitUnique(0, 0, 0, 2);
    SplitUnique(0, 1, 1, 2);
    SplitUnique(1, 0, 2, 2);
    hide Rem, Quot, Times;
    assert m.bins[..2][..1] == [m.bins[0]] && m.bins[..1][..0] == [] && m.bins[..2] == m.bins;
    assert DepthSum([m.bins[0]]) == 2;
    assert DepthSum(m.bins) == 3;
  }

  lemma AllTakenCursor()
    ensures CursorOk(ALL_TAKEN)
  {
    LeastBinUnique(ALL_TAKEN.bins, 1);
  }

  // ---- Whole runs --------------------------------------------------------------------------------------------------------

  datatype Cmd = Get(cb: nat, arg: nat, memory: bool) | Put(id: int)

  function Step(m: Mgr, c: Cmd): Mgr
    requires Inv(m)
  {
    match c
    case Get(cb, arg, memory) => AfterGet(m, cb, arg, memory).0
    case Put(id) => AfterPut(m, id).0
  }

  function Run(m: Mgr, cmds: seq<Cmd>): (r: Mgr)
    requires Inv(m)
    ensures Inv(r)
    decreases |cmds|
  {
    if cmds == [] then m
    else
      StepKeepsInv(m, cmds[0]);
      Run(Step(m, cmds[0]), cmds[1..])
  }

  lemma StepKeepsInv(m: Mgr, c: Cmd)
    requires Inv(m)
    ensures Inv(Step(m, c)) && Step(m, c).first == m.first && Step(m, c).last == m.last && Step(m, c).hashlen == m.hashlen
  {
    match c {
      case Get(cb, arg, memory) =>
        GetKeepsInv(m, cb, arg, memory);
        hide Inv;
        RangeAfterGet(m, cb, arg, memory);
      case Put(id) =>
        PutKeepsInv(m, id);
        RangeAfterPut(m, id);
    }
  }

  lemma RangeAfterGet(m: Mgr, cb: nat, arg: nat, memory: bool)
    requires Inv(m)
    ensures var m' := AfterGet(m, cb, arg, memory).0; m'.first == m.first && m'.last == m.last && m'.hashlen == m.hashlen
  {
  }

  /** The table as a plain map would evolve under the same commands and replies. */
  ghost function MapStep(m: Mgr, t: map<int, (nat, nat)>, c: Cmd): map<int, (nat, nat)>
    requires Inv(m)
  {
    match c
    case Get(cb, arg, memory) => var id := AfterGet(m, cb, arg, memory).1; if id == -1 then t else t[id := (cb, arg)]
    case Put(id) => t - {id}
  }

  ghost function MapRun(m: Mgr, t: map<int, (nat, nat)>, cmds: seq<Cmd>): map<int, (nat, nat)>
    requires Inv(m)
    decreases |cmds|
  {
    if cmds == [] then t
    else
      StepKeepsInv(m, cmds[0]);
      MapRun(Step(m, cmds[0]), MapStep(m, t, cmds[0]), cmds[1..])
  }

  /** Over every run the bins hold the map that the commands and replies describe, and count its size. */
  lemma {:induction false} RunRefinesMap(m: Mgr, cmds: seq<Cmd>)
    requires Inv(m) && m.numAlloc == |Table(m)|
    ensures Table(Run(m, cmds)) == MapRun(m, Table(m), cmds) && Run(m, cmds).numAlloc == |Table(Run(m, cmds))|
    decreases |cmds|
  {
    if cmds != [] {
      var m' := Step(m, cmds[0]);
      StepKeepsInv(m, cmds[0]);
      StepRefinesMap(m, cmds[0]);
      hide Inv, Step, Table, MapStep;
      RunRefinesMap(m', cmds[1..]);
    }
  }

  lemma StepRefinesMap(m: Mgr, c: Cmd)
    requires Inv(m) && m.numAlloc == |Table(m)|
    ensures var m' := Step(m, c); |m'.bins| == m'.hashlen > 0 && Table(m') == MapStep(m, Table(m), c) && m'.numAlloc == |Table(m')|
  {
    match c {
      case Get(cb, arg, memory) => GetRefinesMap(m, cb, arg, memory);
      case Put(id) =>
        PutRefinesMap(m, id);
        hide AfterPut, Table;
        assert id !in Table(m) ==> Table(m) - {id} == Table(m);
        RemoveOne(Table(m), id);
    }
  }

  lemma RemoveOne<K, V>(t: map<K, V>, k: K)
    ensures |t - {k}| == if k in t then |t| - 1 else |t|
  {
    assert (t - {k}).Keys == t.Keys - {k};
    assert |t.Keys - {k}| == if k in t then |t.Keys| - 1 else |t.Keys|;
  }

  // ---- Exhaustion comes about -------------------------------------------------------------------------------------------

  /** The `n` numbers from `first` on. */
  function Span(first: int, n: nat): set<int> { if n == 0 then {} else Span(first, n - 1) + {first + n - 1} }

  lemma {:induction false} SpanIs(first: int, n: nat)
    ensures |Span(first, n)| == n && forall id :: id in Span(first, n) <==> first <= id < first + n
  {
    if n > 0 {
      SpanIs(first, n - 1);
    }
  }

  lemma TableFitsRange(m: Mgr)
    requires Inv(m)
    ensures |Table(m)| <= m.Num()
  {
    SpanIs(m.first, m.Num());
    InTableInRange(m);
    hide Table, Inv, Span;
    SubsetSize(Table(m).Keys, Span(m.first, m.Num()));
  }

  lemma InTableInRange(m: Mgr)
    requires 0 < m.hashlen == |m.bins|
    ensures forall id :: id in Table(m) ==> m.first <= id <= m.last
  {
    hide Lookup;
  }

  lemma InvShape(m: Mgr)
    requires Inv(m)
    ensures 0 < m.hashlen == |m.bins|
  {
  }

  lemma CursorStaysSet(m: Mgr, cb: nat, arg: nat)
    requires Inv(m) && m.Num() > m.hashlen && AfterGet(m, cb, arg, true).1 != -1
    ensures AfterGet(m, cb, arg, true).0.next != -1
  {
    hide Inv, FreeFrom;
  }

  /** With more numbers than bins, gets alone lead to a manager with its cursor set and every number taken. */
  lemma {:induction false} GetsExhaust(m: Mgr) returns (cmds: seq<Cmd>)
    requires Inv(m) && m.Num() > m.hashlen && m.next != -1 && m.numAlloc == |Table(m)|
    ensures var r := Run(m, cmds);
            && r.first == m.first && r.last == m.last && r.hashlen == m.hashlen && r.next != -1
            && forall cb, arg :: AfterGet(r, cb, arg, true).1 == -1
    decreases m.Num() - m.numAlloc
  {
    InvShape(m);
    hide Inv, Table, AfterGet;
    TableFitsRange(m);
    if AfterGet(m, 1, 0, true).1 == -1 {
      cmds := [];
      ExhaustionIsExact(m, 1, 0);
      forall cb, arg ensures AfterGet(m, cb, arg, true).1 == -1 {
        ExhaustionIsExact(m, cb, arg);
      }
    } else {
      var m' := Step(m, Get(1, 0, true));
      GetKeepsInv(m, 1, 0, true);
      GetRefinesMap(m, 1, 0, true);
      AddOne(Table(m), AfterGet(m, 1, 0, true).1, (1, 0));
      CursorStaysSet(m, 1, 0);
      RangeAfterGet(m, 1, 0, true);
      TableFitsRange(m');
      var rest := GetsExhaust(m');
      cmds := [Get(1, 0, true)] + rest;
      assert cmds[1..] == rest;
    }
  }

  lemma AddOne<K, V>(t: map<K, V>, k: K, v: V)
    requires k !in t
    ensures |t[k := v]| == |t| + 1
  {
    assert t[k := v].Keys == t.Keys + {k};
  }

  /** The configured RapidIO manager gets there from its start, so the trap above is reached by a run. */
  lemma ShippedDoorbellsExhaust() returns (m: Mgr, cmds: seq<Cmd>)
    ensures var start := Initial(0x2000, 0x4000, 256);
            Inv(start) && m == Run(start, cmds) && Inv(m)
    ensures m.first == 0x2000 && m.last == 0x4000 && m.hashlen == 256 && m.next != -1
    ensures forall cb, arg :: AfterGet(m, cb, arg, true).1 == -1
  {
    var start := Initial(0x2000, 0x4000, 256);
    InitialIsEmpty(0x2000, 0x4000, 256);
    cmds := GetsExhaust(start);
    m := Run(start, cmds);
  }
}
