/**
 The doorbell numbers of the Ethernet fabric: 256 columns of registered doorbells, each a list sorted by
 depth. Number `e` is at depth e / 256 of column e % 256.
 */
module NetDoorbells {
  import opened Results

  const MAX_HASH: nat := 256
  const MAX_EVENT: nat := 65536

  function Hash(e: nat): nat { e % MAX_HASH }

  function Depth(e: nat): nat { e / MAX_HASH }

  datatype Node = Node(depth: nat, cb: nat, arg: nat)

  type Columns = cs: seq<seq<Node>> | |cs| == MAX_HASH witness seq(MAX_HASH, _ => [])

  ghost predicate Sorted(col: seq<Node>) { forall i, k :: 0 <= i < k < |col| ==> col[i].depth < col[k].depth }

  ghost predicate AllSorted(cs: Columns) { forall h :: 0 <= h < MAX_HASH ==> Sorted(cs[h]) }

  /** find_db on one column: the walk ends at the first node that is as deep, or deeper. */
  function Find(col: seq<Node>, depth: nat): (r: Option<nat>)
    ensures r.Some? ==> r.value < |col| && col[r.value].depth == depth
  {
    if col == [] || col[0].depth > depth then None
    else if col[0].depth == depth then Some(0)
    else
      var r := Find(col[1..], depth);
      if r.Some? then Some(r.value + 1) else None
  }

  /** Ending early misses nothing in a sorted column. */
  lemma {:induction false} FindMissesNothing(col: seq<Node>, i: nat)
    requires Sorted(col) && i < |col|
    ensures Find(col, col[i].depth) == Some(i)
  {
    if i > 0 {
      assert col[0].depth < col[i].depth;
      assert Sorted(col[1..]);
      FindMissesNothing(col[1..], i - 1);
    }
  }

  function FindDb(cs: Columns, e: nat): Option<nat> { Find(cs[Hash(e)], Depth(e)) }

  predicate Taken(cs: Columns, e: nat) { FindDb(cs, e).Some? }

  /** The callback and argument that ring number `e`. */
  function Rung(cs: Columns, e: nat): Option<(nat, nat)> {
    var at := FindDb(cs, e);
    if at.None? then None else Some((cs[Hash(e)][at.value].cb, cs[Hash(e)][at.value].arg))
  }

  /** What the columns stand for. */
  ghost function Bells(cs: Columns): map<nat, (nat, nat)> {
    map e: nat | 0 <= e < MAX_EVENT && Rung(cs, e).Some? :: Rung(cs, e).value
  }

  /** The least number from `e` on that is not taken. */
  function LeastFree(cs: Columns, e: nat): (r: nat)
    requires e <= MAX_EVENT
    ensures e <= r <= MAX_EVENT && (r < MAX_EVENT ==> !Taken(cs, r)) && forall k :: e <= k < r ==> Taken(cs, k)
    decreases MAX_EVENT - e
  {
    if e == MAX_EVENT || !Taken(cs, e) then e else LeastFree(cs, e + 1)
  }

  /** The node put in front of the rest of the column after its predecessor. */
  function InsertedAfter(col: seq<Node>, i: nat, n: Node): seq<Node>
    requires i < |col|
  {
    col[..i + 1] + [n] + col[i + 1..]
  }

  /** allocate_db: at depth 0 the new node becomes the whole column. */
  function AfterAllocate(cs: Columns, cb: nat, arg: nat): (Columns, int) {
    var e := LeastFree(cs, 0);
    if e == MAX_EVENT then (cs, -1)
    else
      var col, n := cs[Hash(e)], Node(Depth(e), cb, arg);
      if e >= MAX_HASH then
        assert Taken(cs, e - MAX_HASH);
        PredecessorColumn(e);
        (cs[Hash(e) := InsertedAfter(col, FindDb(cs, e - MAX_HASH).value, n)], e)
      else (cs[Hash(e) := [n]], e)
  }

  lemma PredecessorColumn(e: nat)
    requires e >= MAX_HASH
    ensures Hash(e - MAX_HASH) == Hash(e) && Depth(e - MAX_HASH) == Depth(e) - 1
  {
  }

  /** deallocate_db; None stands for following a pointer that is NULL. */
  function AfterDeallocate(cs: Columns, e: nat): Option<Columns> {
    var at, col := FindDb(cs, e), cs[Hash(e)];
    if at.None? then None
    else if e >= MAX_HASH then
      var before := FindDb(cs, e - MAX_HASH);
      PredecessorColumn(e);
      if before.None? then None
      else Some(cs[Hash(e) := col[..before.value + 1] + col[at.value + 1..]])
    else Some(cs[Hash(e) := col[at.value + 1..]])
  }

  // ---- Columns --------------------------------------------------------------------------------------------------

  lemma NumberOf(e: nat)
    requires e < MAX_EVENT
    ensures Depth(e) < MAX_HASH && e == Depth(e) * MAX_HASH + Hash(e)
  {
  }

  /** Whether a column has a node at a depth, and which. */
  ghost predicate Has(col: seq<Node>, d: nat, n: Node) { exists i :: 0 <= i < |col| && col[i] == n && n.depth == d }

  lemma FindIsHas(col: seq<Node>, d: nat)
    requires Sorted(col)
    ensures Find(col, d).Some? ==> Has(col, d, col[Find(col, d).value])
    ensures forall n :: Has(col, d, n) ==> Find(col, d).Some? && col[Find(col, d).value] == n
  {
    forall n | Has(col, d, n) ensures Find(col, d).Some? && col[Find(col, d).value] == n {
      var i :| 0 <= i < |col| && col[i] == n;
      FindMissesNothing(col, i);
    }
  }

  /** Predecessor and successor of a depth that is not taken are next to each other. */
  lemma InsertKeepsSorted(col: seq<Node>, i: nat, n: Node)
    requires Sorted(col) && i < |col| && n.depth == col[i].depth + 1 && Find(col, n.depth).None?
    ensures Sorted(InsertedAfter(col, i, n))
  {
    if i + 1 < |col| && col[i + 1].depth == n.depth {
      FindMissesNothing(col, i + 1);
    }
    InsertedIs(col, i, n);
    hide Find, InsertedAfter;
    var col' := InsertedAfter(col, i, n);
    forall j, k | 0 <= j < k < |col'| ensures col'[j].depth < col'[k].depth {
    }
  }

  lemma InsertedIs(col: seq<Node>, i: nat, n: Node)
    requires i < |col|
    ensures var col' := InsertedAfter(col, i, n);
            && |col'| == |col| + 1
            && forall j :: 0 <= j < |col'| ==> col'[j] == if j <= i then col[j] else if j == i + 1 then n else col[j - 1]
  {
  }

  lemma HasAfterInsert(col: seq<Node>, i: nat, n: Node, d: nat, m: Node)
    requires i < |col|
    ensures Has(InsertedAfter(col, i, n), d, m) <==> Has(col, d, m) || (m == n && n.depth == d)
  {
    var col' := InsertedAfter(col, i, n);
    assert col'[i + 1] == n;
    if Has(col, d, m) {
      var k :| 0 <= k < |col| && col[k] == m;
      assert col'[if k <= i then k else k + 1] == m;
    }
    if Has(col', d, m) {
      var k :| 0 <= k < |col'| && col'[k] == m;
      assert k != i + 1 ==> col[if k <= i then k else k - 1] == m;
    }
  }

  /** Unlinking a node from behind the one a depth above it. */
  lemma UnlinkedColumn(col: seq<Node>, i: nat, d: nat, m: Node)
    requires Sorted(col) && i < |col|
    ensures Sorted(col[..i] + col[i + 1..])
    ensures Has(col[..i] + col[i + 1..], d, m) <==> Has(col, d, m) && d != col[i].depth
  {
    var col' := col[..i] + col[i + 1..];
    assert forall k :: 0 <= k < |col'| ==> col'[k] == col[if k < i then k else k + 1];
    if Has(col, d, m) && d != col[i].depth {
      var k :| 0 <= k < |col| && col[k] == m;
      assert col'[if k < i then k else k - 1] == m;
    }
  }

  lemma AdjacentInColumn(col: seq<Node>, i: nat, k: nat)
    requires Sorted(col) && i < |col| && k < |col| && col[k].depth == col[i].depth + 1
    ensures k == i + 1
  {
    assert i + 1 < |col| ==> col[i].depth < col[i + 1].depth;
  }

  lemma {:induction false} DepthAtLeast(col: seq<Node>, i: nat)
    requires Sorted(col) && i < |col|
    ensures col[i].depth >= i
  {
    if i > 0 {
      DepthAtLeast(col, i - 1);
    }
  }

  // ---- The table they stand for ---------------------------------------------------------------------------------------

  lemma RungIsHas(cs: Columns, e: nat)
    requires AllSorted(cs)
    ensures Rung(cs, e).Some? ==> exists n :: Has(cs[Hash(e)], Depth(e), n) && Rung(cs, e) == Some((n.cb, n.arg))
    ensures forall n :: Has(cs[Hash(e)], Depth(e), n) ==> Rung(cs, e) == Some((n.cb, n.arg))
  {
    FindIsHas(cs[Hash(e)], Depth(e));
  }

  /** Two columns that have the same nodes at a depth ring the same. */
  lemma SameRung(cs: Columns, cs': Columns, e: nat)
    requires AllSorted(cs) && AllSorted(cs')
    requires forall n :: Has(cs'[Hash(e)], Depth(e), n) <==> Has(cs[Hash(e)], Depth(e), n)
    ensures Rung(cs', e) == Rung(cs, e)
  {
    RungIsHas(cs, e);
    RungIsHas(cs', e);
    hide Has, Hash, Depth, Find;
  }

  lemma SameColumnRung(cs: Columns, cs': Columns, e: nat)
    requires cs'[Hash(e)] == cs[Hash(e)]
    ensures Rung(cs', e) == Rung(cs, e)
  {
  }

  lemma NumbersDiffer(e: nat, k: nat)
    requires e < MAX_EVENT && k < MAX_EVENT && e != k && Hash(e) == Hash(k)
    ensures Depth(e) != Depth(k)
  {
    NumberOf(e);
    NumberOf(k);
  }

  /** The number returned is the least that is not taken, and -1 means that all are. */
  lemma AllocatesLeast(cs: Columns, cb: nat, arg: nat)
    ensures var (_, e) := AfterAllocate(cs, cb, arg);
            if e == -1 then forall k :: 0 <= k < 65536 ==> Taken(cs, k)
            else 0 <= e < 65536 && !Taken(cs, e) && forall k :: 0 <= k < e ==> Taken(cs, k)
  {
    hide Hash, Depth, FindDb;
  }

  lemma DeepRung(cs: Columns, cs': Columns, e: nat, i: nat, n: Node, k: nat)
    requires AllSorted(cs) && AllSorted(cs') && e < MAX_EVENT && k < MAX_EVENT && !Taken(cs, e)
    requires i < |cs[Hash(e)]| && n.depth == Depth(e) && cs' == cs[Hash(e) := InsertedAfter(cs[Hash(e)], i, n)]
    ensures Rung(cs', k) == if k == e then Some((n.cb, n.arg)) else Rung(cs, k)
  {
    hide AllSorted, InsertedAfter, Find;
    var col := cs[Hash(e)];
    if Hash(k) != Hash(e) {
      SameColumnRung(cs, cs', k);
    } else {
      forall m ensures Has(cs'[Hash(k)], Depth(k), m) <==> Has(col, Depth(k), m) || (m == n && n.depth == Depth(k)) {
        HasAfterInsert(col, i, n, Depth(k), m);
      }
      if k == e {
        RungIsHas(cs', e);
      } else {
        NumbersDiffer(e, k);
        SameRung(cs, cs', k);
      }
    }
  }

  lemma BellsWith(cs: Columns, cs': Columns, e: nat, v: (nat, nat))
    requires e < MAX_EVENT
    requires forall k: nat :: 0 <= k < MAX_EVENT ==> Rung(cs', k) == if k == e then Some(v) else Rung(cs, k)
    ensures Bells(cs') == Bells(cs)[e := v]
  {
    hide Rung;
  }

  lemma BellsWithout(cs: Columns, cs': Columns, e: nat)
    requires forall k: nat :: 0 <= k < MAX_EVENT ==> Rung(cs', k) == if k == e then None else Rung(cs, k)
    ensures Bells(cs') == Bells(cs) - {e}
  {
    hide Rung;
  }

  /** Where a deep number's node goes: behind the node of the number 256 below it, which is taken. */
  lemma DeepShape(cs: Columns, cb: nat, arg: nat, e: nat) returns (i: nat, n: Node)
    requires AllSorted(cs) && e == LeastFree(cs, 0) && MAX_HASH <= e < MAX_EVENT
    ensures !Taken(cs, e) && n == Node(Depth(e), cb, arg)
    ensures i < |cs[Hash(e)]| && n.depth == cs[Hash(e)][i].depth + 1
    ensures AfterAllocate(cs, cb, arg) == (cs[Hash(e) := InsertedAfter(cs[Hash(e)], i, n)], e)
  {
    hide Find, InsertedAfter;
    assert Taken(cs, e - MAX_HASH) && !Taken(cs, e);
    PredecessorColumn(e);
    hide Hash, Depth;
    i, n := FindDb(cs, e - MAX_HASH).value, Node(Depth(e), cb, arg);
  }

  /** Behind its predecessor the new node is registered under its number, and nothing else changes. */
  lemma DeepAllocate(cs: Columns, cb: nat, arg: nat)
    requires AllSorted(cs) && MAX_HASH <= LeastFree(cs, 0) < MAX_EVENT
    ensures var (cs', e) := AfterAllocate(cs, cb, arg);
            AllSorted(cs') && Bells(cs') == Bells(cs)[e := (cb, arg)]
  {
    var e := LeastFree(cs, 0);
    var i, n := DeepShape(cs, cb, arg, e);
    var cs' := AfterAllocate(cs, cb, arg).0;
    hide AfterAllocate, Find, InsertedAfter, Sorted, Depth, Hash;
    assert Sorted(cs[Hash(e)]);
    InsertKeepsSorted(cs[Hash(e)], i, n);
    assert AllSorted(cs');
    forall k: nat | 0 <= k < MAX_EVENT ensures Rung(cs', k) == if k == e then Some((cb, arg)) else Rung(cs, k) {
      DeepRung(cs, cs', e, i, n, k);
    }
    BellsWith(cs, cs', e, (cb, arg));
  }

  /** A node put at the head of its column replaces the column. */
  lemma HeadRung(cs: Columns, cs': Columns, e: nat, n: Node, k: nat)
    requires AllSorted(cs) && e < MAX_HASH && k < MAX_EVENT && n.depth == 0 && cs' == cs[Hash(e) := [n]]
    ensures Rung(cs', k) == if k == e then Some((n.cb, n.arg)) else if Hash(k) == Hash(e) then None else Rung(cs, k)
  {
    if Hash(k) != Hash(e) {
      SameColumnRung(cs, cs', k);
    } else if k != e {
      NumbersDiffer(e, k);
    }
  }

  lemma ShallowShape(cs: Columns, cb: nat, arg: nat, e: nat)
    requires AllSorted(cs) && e == LeastFree(cs, 0) < MAX_HASH
    ensures Hash(e) == e && Depth(e) == 0 && Rung(cs, e).None?
    ensures var cs' := cs[e := [Node(0, cb, arg)]]; AfterAllocate(cs, cb, arg) == (cs', e) && AllSorted(cs')
  {
    assert !Taken(cs, e);
  }

  /**
   At depth 0 nothing but the new number changes exactly if its column was empty: whatever the column held
   is dropped.
   */
  lemma ShallowAllocateIff(cs: Columns, cb: nat, arg: nat)
    requires AllSorted(cs) && LeastFree(cs, 0) < MAX_HASH && DepthsInRange(cs)
    ensures var (cs', e) := AfterAllocate(cs, cb, arg);
            && AllSorted(cs')
            && (Bells(cs') == Bells(cs)[e := (cb, arg)] <==> cs[e] == [])
            && (forall k: nat :: k < MAX_EVENT && Hash(k) == e && k != e ==> k !in Bells(cs'))
  {
    var e := LeastFree(cs, 0);
    var cs', n := AfterAllocate(cs, cb, arg).0, Node(0, cb, arg);
    ShallowShape(cs, cb, arg, e);
    hide AfterAllocate, AllSorted, Find, Hash, Depth;
    forall k: nat | k < MAX_EVENT
      ensures Rung(cs', k) == if k == e then Some((cb, arg)) else if Hash(k) == e then None else Rung(cs, k)
    {
      HeadRung(cs, cs', e, n, k);
    }
    hide Rung;
    if cs[e] == [] {
      forall k: nat | k < MAX_EVENT && Hash(k) == e ensures Rung(cs, k) == None {
        EmptyColumn(cs, k);
      }
      BellsWith(cs, cs', e, (cb, arg));
    } else {
      LostBell(cs, e);
      assert NumberIn(cs, e) in Bells(cs) && NumberIn(cs, e) !in Bells(cs');
    }
  }

  lemma EmptyColumn(cs: Columns, k: nat)
    requires cs[Hash(k)] == []
    ensures Rung(cs, k) == None
  {
  }

  /** Depths are those of 16-bit numbers. */
  ghost predicate DepthsInRange(cs: Columns) {
    forall h, i :: 0 <= h < MAX_HASH && 0 <= i < |cs[h]| ==> cs[h][i].depth < MAX_HASH
  }

  /** The number of the first node of a column. */
  function NumberIn(cs: Columns, h: nat): nat
    requires h < MAX_HASH && cs[h] != []
  {
    cs[h][0].depth * MAX_HASH + h
  }

  lemma LostBell(cs: Columns, h: nat)
    requires AllSorted(cs) && DepthsInRange(cs) && h < MAX_HASH && cs[h] != []
    ensures var k := NumberIn(cs, h); k < MAX_EVENT && Hash(k) == h && k in Bells(cs)
  {
    var k := NumberIn(cs, h);
    assert cs[h][0].depth < MAX_HASH;
    assert Hash(k) == h && Depth(k) == cs[h][0].depth;
    FindMissesNothing(cs[h], 0);
  }

  // ---- Freeing --------------------------------------------------------------------------------------------------------

  lemma CanDeallocate(cs: Columns, e: nat)
    ensures AfterDeallocate(cs, e).Some? <==> Taken(cs, e) && (e >= 256 ==> Taken(cs, e - 256))
  {
    hide Find, Hash, Depth;
  }

  lemma DeallocateRemoves(cs: Columns, e: nat)
    requires AllSorted(cs) && e < MAX_EVENT && AfterDeallocate(cs, e).Some?
    ensures AllSorted(AfterDeallocate(cs, e).value) && Bells(AfterDeallocate(cs, e).value) == Bells(cs) - {e}
  {
    var at, cs' := FreedAt(cs, e), AfterDeallocate(cs, e).value;
    UnlinkShape(cs, e, at);
    hide AfterDeallocate, Find, Sorted, Hash, Depth;
    assert Sorted(cs[Hash(e)]);
    forall d, m ensures Sorted(cs'[Hash(e)]) && (Has(cs'[Hash(e)], d, m) <==> Has(cs[Hash(e)], d, m) && d != Depth(e)) {
      UnlinkedColumn(cs[Hash(e)], at, d, m);
    }
    assert AllSorted(cs');
    forall k: nat | 0 <= k < MAX_EVENT ensures Rung(cs', k) == if k == e then None else Rung(cs, k) {
      FreedRung(cs, cs', e, k);
    }
    BellsWithout(cs, cs', e);
  }

  /** Freeing works exactly if the number is taken and, below depth 0, so is the one 256 before it. */
  lemma DeallocateIff(cs: Columns, e: nat)
    requires AllSorted(cs) && e < MAX_EVENT
    ensures AfterDeallocate(cs, e).Some? <==> Taken(cs, e) && (e >= 256 ==> Taken(cs, e - 256))
    ensures AfterDeallocate(cs, e).Some? ==>
      var cs' := AfterDeallocate(cs, e).value;
      AllSorted(cs') && Bells(cs') == Bells(cs) - {e}
  {
    CanDeallocate(cs, e);
    hide AfterDeallocate, AllSorted, Bells, Taken;
    if AfterDeallocate(cs, e).Some? {
      DeallocateRemoves(cs, e);
    }
  }

  function FreedAt(cs: Columns, e: nat): nat
    requires Taken(cs, e)
  {
    FindDb(cs, e).value
  }

  lemma UnlinkShape(cs: Columns, e: nat, at: nat)
    requires AllSorted(cs) && e < MAX_EVENT && AfterDeallocate(cs, e).Some? && at == FreedAt(cs, e)
    ensures at < |cs[Hash(e)]| && cs[Hash(e)][at].depth == Depth(e)
    ensures AfterDeallocate(cs, e).value == cs[Hash(e) := cs[Hash(e)][..at] + cs[Hash(e)][at + 1..]]
  {
    var col := cs[Hash(e)];
    assert Sorted(col);
    if e >= MAX_HASH {
      PredecessorColumn(e);
      AdjacentInColumn(col, FindDb(cs, e - MAX_HASH).value, at);
    } else {
      assert Depth(e) == 0;
      DepthAtLeast(col, at);
      assert col[..0] + col[1..] == col[1..];
    }
  }

  lemma FreedRung(cs: Columns, cs': Columns, e: nat, k: nat)
    requires AllSorted(cs) && AllSorted(cs') && e < MAX_EVENT && k < MAX_EVENT && Taken(cs, e)
    requires cs' == cs[Hash(e) := cs'[Hash(e)]]
    requires forall d, m :: Has(cs'[Hash(e)], d, m) <==> Has(cs[Hash(e)], d, m) && d != Depth(e)
    ensures Rung(cs', k) == if k == e then None else Rung(cs, k)
  {
    hide AllSorted, Find;
    if Hash(k) != Hash(e) {
      SameColumnRung(cs, cs', k);
    } else if k == e {
      RungIsHas(cs', e);
    } else {
      NumbersDiffer(e, k);
      SameRung(cs, cs', k);
    }
  }

  // ---- Columns without gaps ---------------------------------------------------------------------------------------------

  /** Every column holds the depths from 0 up without a gap. */
  ghost predicate GapFree(cs: Columns) {
    forall h, i :: 0 <= h < MAX_HASH && 0 <= i < |cs[h]| ==> cs[h][i].depth == i
  }

  lemma GapFreeIsSorted(cs: Columns)
    requires GapFree(cs)
    ensures AllSorted(cs)
  {
  }

  /** In a table without gaps a number is taken exactly if its column is longer than it is deep. */
  lemma TakenInGapFree(cs: Columns, e: nat)
    requires GapFree(cs)
    ensures Taken(cs, e) <==> Depth(e) < |cs[Hash(e)]|
    ensures Taken(cs, e) ==> FreedAt(cs, e) == Depth(e)
  {
    GapFreeIsSorted(cs);
    hide Hash, Depth;
    if Depth(e) < |cs[Hash(e)]| {
      FindMissesNothing(cs[Hash(e)], Depth(e));
    }
  }

  /** Without gaps, every registration adds its number and nothing else, and leaves no gap. */
  lemma GapFreeAllocate(cs: Columns, cb: nat, arg: nat)
    requires GapFree(cs) && DepthsInRange(cs)
    ensures var (cs', e) := AfterAllocate(cs, cb, arg);
            && GapFree(cs') && DepthsInRange(cs')
            && Bells(cs') == if e == -1 then Bells(cs) else Bells(cs)[e := (cb, arg)]
  {
    GapFreeIsSorted(cs);
    var e := LeastFree(cs, 0);
    hide Hash, Depth;
    if e < MAX_EVENT {
      NumberOf(e);
      TakenInGapFree(cs, e);
      if e < MAX_HASH {
        ShallowShape(cs, cb, arg, e);
        ShallowAllocateIff(cs, cb, arg);
        hide AfterAllocate, Bells, Find;
      } else {
        var i, n := DeepShape(cs, cb, arg, e);
        DeepAllocate(cs, cb, arg);
        hide AfterAllocate, Bells, Find, AllSorted;
        assert cs[Hash(e)][i].depth == i;
        var col, col' := cs[Hash(e)], InsertedAfter(cs[Hash(e)], i, n);
        assert i + 1 == |col| && col' == col + [n];
      }
    } else {
      hide Bells;
    }
  }

  /** Freeing leaves no gap exactly if it takes the deepest of its column. */
  lemma GapFreeDeallocateIff(cs: Columns, e: nat)
    requires GapFree(cs) && e < MAX_EVENT && Taken(cs, e)
    ensures AfterDeallocate(cs, e).Some? && Bells(AfterDeallocate(cs, e).value) == Bells(cs) - {e}
    ensures GapFree(AfterDeallocate(cs, e).value) <==> Depth(e) == |cs[Hash(e)]| - 1
  {
    GapFreeIsSorted(cs);
    TakenInGapFree(cs, e);
    if e >= MAX_HASH {
      PredecessorColumn(e);
      TakenInGapFree(cs, e - MAX_HASH);
    }
    DeallocateIff(cs, e);
    UnlinkShape(cs, e, FreedAt(cs, e));
    var h, d := Hash(e), Depth(e);
    var col, cs' := cs[h], AfterDeallocate(cs, e).value;
    hide AfterDeallocate, Bells, Find, Hash, Depth, AllSorted, Taken;
    GapIn(cs, h, d);
    assert cs' == cs[h := col[..d] + col[d + 1..]];
  }

  /** Taking out of a column without gaps an element other than the last one leaves a gap. */
  lemma GapIn(cs: Columns, h: nat, d: nat)
    requires GapFree(cs) && h < MAX_HASH && d < |cs[h]|
    ensures GapFree(cs[h := cs[h][..d] + cs[h][d + 1..]]) <==> d == |cs[h]| - 1
  {
    var col := cs[h];
    var col' := col[..d] + col[d + 1..];
    assert cs[h := col'][h] == col';
    if d < |col| - 1 {
      assert col'[d] == col[d + 1] && col[d + 1].depth == d + 1;
    } else {
      assert col' == col[..d];
    }
  }

  /**
   The trap: free the head of a column that goes deeper, and the next registration that gets that number
   back silently drops every deeper doorbell of the column.
   */
  lemma ReuseDropsColumn(cs: Columns, h: nat, cb: nat, arg: nat)
    requires GapFree(cs) && DepthsInRange(cs) && h < MAX_HASH && |cs[h]| > 1 && forall k :: 0 <= k < h ==> cs[k] != []
    ensures AfterDeallocate(cs, h).Some?
    ensures var (cs', e) := AfterAllocate(AfterDeallocate(cs, h).value, cb, arg);
            e == h && h + MAX_HASH in Bells(cs) && h + MAX_HASH !in Bells(cs')
  {
    FreeHead(cs, h);
    var freed := AfterDeallocate(cs, h).value;
    LeastFreeIs(cs, freed, h);
    HashAbove(h);
    hide AfterDeallocate, AfterAllocate, Bells, Find, Hash, Depth, LeastFree;
    assert AllSorted(freed) && DepthsInRange(freed);
    ShallowAllocateIff(freed, cb, arg);
    ShallowShape(freed, cb, arg, h);
  }

  lemma FreeHead(cs: Columns, h: nat)
    requires GapFree(cs) && h < MAX_HASH && |cs[h]| > 1
    ensures AfterDeallocate(cs, h) == Some(cs[h := cs[h][1..]]) && h + MAX_HASH in Bells(cs)
  {
    assert Hash(h) == h && Depth(h) == 0 && Hash(h + MAX_HASH) == h && Depth(h + MAX_HASH) == 1;
    TakenInGapFree(cs, h);
    TakenInGapFree(cs, h + MAX_HASH);
    hide Find;
  }

  lemma HashAbove(h: nat)
    requires h < MAX_HASH
    ensures Hash(h + MAX_HASH) == h
  {
  }

  lemma LeastFreeIs(cs: Columns, freed: Columns, h: nat)
    requires GapFree(cs) && h < MAX_HASH && cs[h] != [] && forall k :: 0 <= k < h ==> cs[k] != []
    requires freed == cs[h := cs[h][1..]]
    ensures LeastFree(freed, 0) == h
  {
    assert Hash(h) == h && Depth(h) == 0;
    assert !Taken(freed, h) by {
      assert freed[h] != [] ==> freed[h][0] == cs[h][1];
    }
    forall k: nat | k < h ensures Taken(freed, k) {
      assert Hash(k) == k && Depth(k) == 0 && freed[k] == cs[k] && cs[k][0].depth == 0;
    }
    hide Taken;
  }

  // ---- Runs -------------------------------------------------------------------------------------------------------------

  datatype Cmd = Register(cb: nat, arg: nat) | Unregister(e: nat)

  /** A run that only ever frees the deepest number of its column. */
  ghost predicate Disciplined(cs: Columns, cmds: seq<Cmd>)
    decreases |cmds|
  {
    cmds == [] || match cmds[0]
    case Register(cb, arg) => Disciplined(AfterAllocate(cs, cb, arg).0, cmds[1..])
    case Unregister(e) =>
      e < MAX_EVENT && Taken(cs, e) && Depth(e) == |cs[Hash(e)]| - 1
      && AfterDeallocate(cs, e).Some? && Disciplined(AfterDeallocate(cs, e).value, cmds[1..])
  }

  ghost function Run(cs: Columns, cmds: seq<Cmd>): Columns
    requires Disciplined(cs, cmds)
    decreases |cmds|
  {
    if cmds == [] then cs
    else match cmds[0]
      case Register(cb, arg) => Run(AfterAllocate(cs, cb, arg).0, cmds[1..])
      case Unregister(e) => Run(AfterDeallocate(cs, e).value, cmds[1..])
  }

  /** The table as a map from numbers to callbacks would evolve, each registration getting the least free number. */
  ghost function MapRun(m: map<nat, (nat, nat)>, cmds: seq<Cmd>): map<nat, (nat, nat)>
    decreases |cmds|
  {
    if cmds == [] then m
    else match cmds[0]
      case Register(cb, arg) =>
        var e := LeastMissing(m, 0);
        MapRun(if e < MAX_EVENT then m[e := (cb, arg)] else m, cmds[1..])
      case Unregister(e) => MapRun(m - {e}, cmds[1..])
  }

  function LeastMissing(m: map<nat, (nat, nat)>, e: nat): (r: nat)
    requires e <= MAX_EVENT
    decreases MAX_EVENT - e
  {
    if e == MAX_EVENT || e !in m then e else LeastMissing(m, e + 1)
  }

  lemma {:induction false} LeastAgrees(cs: Columns, e: nat)
    requires e <= MAX_EVENT
    ensures LeastMissing(Bells(cs), e) == LeastFree(cs, e)
    decreases MAX_EVENT - e
  {
    if e < MAX_EVENT && Taken(cs, e) {
      assert e in Bells(cs);
      LeastAgrees(cs, e + 1);
    }
  }

  /** Over every such run the columns stand for that map. */
  lemma {:induction false} RunRefinesMap(cs: Columns, cmds: seq<Cmd>)
    requires GapFree(cs) && DepthsInRange(cs) && Disciplined(cs, cmds)
    ensures GapFree(Run(cs, cmds)) && Bells(Run(cs, cmds)) == MapRun(Bells(cs), cmds)
    decreases |cmds|
  {
    hide Bells, AfterAllocate, AfterDeallocate, GapFree, DepthsInRange, Taken, LeastFree;
    if cmds != [] {
      match cmds[0] {
        case Register(cb, arg) =>
          GapFreeAllocate(cs, cb, arg);
          LeastAgrees(cs, 0);
          AllocateReturns(cs, cb, arg);
          RunRefinesMap(AfterAllocate(cs, cb, arg).0, cmds[1..]);
        case Unregister(e) =>
          GapFreeDeallocateIff(cs, e);
          FreedInRange(cs, e);
          RunRefinesMap(AfterDeallocate(cs, e).value, cmds[1..]);
      }
    }
  }

  lemma AllocateReturns(cs: Columns, cb: nat, arg: nat)
    ensures AfterAllocate(cs, cb, arg).1 == if LeastFree(cs, 0) < MAX_EVENT then LeastFree(cs, 0) else -1
  {
    hide Hash, Depth;
  }

  lemma FreedInRange(cs: Columns, e: nat)
    requires DepthsInRange(cs) && AfterDeallocate(cs, e).Some?
    ensures DepthsInRange(AfterDeallocate(cs, e).value)
  {
    hide Depth, Find;
  }

  // ---- The columns in place ---------------------------------------------------------------------------------------------

  /** bell_hash: the columns, edited in place. */
  class BellHash {
    const columns: array<seq<Node>>

    ghost predicate Valid() { columns.Length == MAX_HASH }

    ghost function State(): Columns
      reads columns
      requires Valid()
    {
      columns[..]
    }

    constructor ()
      ensures Valid() && fresh(columns) && GapFree(State()) && Bells(State()) == map[]
    {
      columns := new seq<Node>[MAX_HASH](_ => []);
      new;
      assert forall e: nat :: Rung(State(), e) == None;
    }

    /** find_db: the position in its column of the number's node. */
    method FindNode(e: nat) returns (r: Option<nat>)
      requires Valid()
      ensures r == FindDb(State(), e)
    {
      var col := columns[Hash(e)];
      var i := 0;
      assert col[0..] == col;
      while i < |col| && col[i].depth <= Depth(e)
        invariant i <= |col|
        invariant FindDb(State(), e) == var rest := Find(col[i..], Depth(e)); if rest.Some? then Some(rest.value + i) else None
      {
        if col[i].depth == Depth(e) {
          return Some(i);
        }
        assert col[i..][1..] == col[i + 1..];
        i := i + 1;
      }
      r := None;
    }

    /** allocate_db: the least number that is not taken, or -1. */
    method Allocate(cb: nat, arg: nat) returns (r: int)
      requires Valid()
      modifies columns
      ensures Valid() && (State(), r) == AfterAllocate(old(State()), cb, arg)
    {
      var e := 0;
      while e < MAX_EVENT
        invariant e <= MAX_EVENT && LeastFree(State(), 0) == LeastFree(State(), e) && columns[..] == old(columns[..])
      {
        var db := FindNode(e);
        if db == None {
          AddNode(e, Node(Depth(e), cb, arg));
          return e;
        }
        e := e + 1;
      }
      r := -1;
    }

    /** The new node goes behind its predecessor, or becomes the column. */
    method AddNode(e: nat, n: Node)
      requires Valid() && e == LeastFree(State(), 0) < MAX_EVENT && n.depth == Depth(e)
      modifies columns
      ensures Valid() && State() == AfterAllocate(old(State()), n.cb, n.arg).0
    {
      if Depth(e) > 0 {
        PredecessorColumn(e);
        assert Taken(State(), e - MAX_HASH);
        var odb := FindNode(e - MAX_HASH);
        columns[Hash(e)] := InsertedAfter(columns[Hash(e)], odb.value, n);
      } else {
        columns[Hash(e)] := [n];
      }
    }

    /** deallocate_db, on a number whose pointers can be followed. */
    method Deallocate(e: nat)
      requires Valid() && AfterDeallocate(State(), e).Some?
      modifies columns
      ensures Valid() && State() == AfterDeallocate(old(State()), e).value
    {
      var db := FindNode(e);
      var col := columns[Hash(e)];
      if Depth(e) > 0 {
        PredecessorColumn(e);
        var odb := FindNode(e - MAX_HASH);
        columns[Hash(e)] := col[..odb.value + 1] + col[db.value + 1..];
      } else {
        columns[Hash(e)] := col[db.value + 1..];
      }
    }

    /** invoke_db: the callback and argument that run, if any. */
    method Invoke(e: nat) returns (r: Option<(nat, nat)>)
      requires Valid()
      ensures r == Rung(State(), e)
    {
      var db := FindNode(e);
      if db == None {
        return None;
      }
      var n := columns[Hash(e)][db.value];
      r := Some((n.cb, n.arg));
    }
  }
}
