/**
 The ring buffers that carry completion events between the interrupt handler and the completion thread.
 */
module Ring {
  import opened Results

  /** The slot after slot `i` in a ring of `n`. */
  function Next(i: nat, n: nat): nat
    requires n > 0
  {
    (i + 1) % n
  }

  lemma NextIs(i: nat, n: nat)
    requires i < n
    ensures Next(i, n) == if i + 1 == n then 0 else i + 1
  {
  }

  /** What the ring holds, oldest first: the slots from the read index up to the write index, around the end. */
  function Between<T>(slots: seq<T>, r: nat, w: nat): seq<T>
    requires r < |slots| && w < |slots|
  {
    if r <= w then slots[r..w] else slots[r..] + slots[..w]
  }

  /** Advancing the write index adds the element in the slot it passes; not when the slot after it is the read one. */
  lemma WriteAdvances<T>(slots: seq<T>, r: nat, w: nat)
    requires r < |slots| && w < |slots|
    ensures Next(w, |slots|) == r <==> |Between(slots, r, w)| == |slots| - 1
    ensures Next(w, |slots|) != r ==> Between(slots, r, Next(w, |slots|)) == Between(slots, r, w) + [slots[w]]
  {
    NextIs(w, |slots|);
    hide Next;
  }

  /** Advancing the read index takes off the oldest element. */
  lemma ReadAdvances<T>(slots: seq<T>, r: nat, w: nat)
    requires r < |slots| && w < |slots|
    ensures r == w <==> Between(slots, r, w) == []
    ensures r != w ==> Between(slots, r, w) == [slots[r]] + Between(slots, Next(r, |slots|), w)
  {
    NextIs(r, |slots|);
    hide Next;
    if r < w {
      assert slots[r..w] == [slots[r]] + slots[r + 1..w];
    } else if w < r && r + 1 == |slots| {
      assert slots[r..] == [slots[r]];
    } else if w < r {
      assert slots[r..] == [slots[r]] + slots[r + 1..];
      assert [slots[r]] + slots[r + 1..] + slots[..w] == [slots[r]] + (slots[r + 1..] + slots[..w]);
    }
  }

  /** A slot outside the ring's contents may be written. */
  lemma WriteOutside<T>(slots: seq<T>, r: nat, w: nat, x: T)
    requires r < |slots| && w < |slots|
    ensures Between(slots[w := x], r, w) == Between(slots, r, w)
  {
  }

  // ---- One caller at a time ----------------------------------------------------------------------------------

  class RingBuf<T> {
    const slots: array<T>
    var iRead: nat
    var iWrite: nat

    ghost predicate Valid()
      reads this
    {
      iRead < slots.Length && iWrite < slots.Length
    }

    ghost function Contents(): seq<T>
      reads this, slots
      requires Valid()
    {
      Between(slots[..], iRead, iWrite)
    }

    /** ringbuf_init: empty, or holding all the array but its last slot. */
    constructor (elements: array<T>, full: bool)
      requires elements.Length > 0
      ensures slots == elements && Valid()
      ensures Contents() == if full then elements[..elements.Length - 1] else []
    {
      slots := elements;
      iRead := 0;
      iWrite := if full then elements.Length - 1 else 0;
      new;
      assert full ==> slots[..][0..slots.Length - 1] == slots[..slots.Length - 1];
    }

    /** ringbuf_empty */
    method Empty() returns (empty: bool)
      requires Valid()
      ensures empty <==> Contents() == []
    {
      ReadAdvances(slots[..], iRead, iWrite);
      empty := iRead == iWrite;
    }

    /** ringbuf_get: the oldest element, or nothing from an empty ring. */
    method Get() returns (x: Option<T>)
      requires Valid()
      modifies this`iRead
      ensures Valid()
      ensures old(Contents()) == [] ==> x == None && Contents() == []
      ensures old(Contents()) != [] ==> x.Some? && old(Contents()) == [x.value] + Contents()
    {
      ReadAdvances(slots[..], iRead, iWrite);
      if iRead == iWrite {
        return None;
      }
      x := Some(slots[iRead]);
      iRead := Next(iRead, slots.Length);
    }

    /** ringbuf_put: refused when the ring holds one element less than it has slots. */
    method Put(x: T) returns (ok: bool)
      requires Valid()
      modifies this`iWrite, slots
      ensures Valid()
      ensures ok <==> |old(Contents())| < slots.Length - 1
      ensures Contents() == if ok then old(Contents()) + [x] else old(Contents())
    {
      WriteAdvances(slots[..], iRead, iWrite);
      var next := Next(iWrite, slots.Length);
      if next == iRead {
        return false;
      }
      ghost var before := slots[..];
      slots[iWrite] := x;
      assert slots[..] == before[iWrite := x];
      WriteOutside(before, iRead, iWrite, x);
      WriteAdvances(slots[..], iRead, iWrite);
      iWrite := next;
      ok := true;
    }
  }

  // ---- One producer and one consumer at the same time ------------------------------------------------------------

  /** Where ringbuf_put stands: not called, past its test for room, or past writing the slot. */
  datatype Putter<T> = NotPutting | Room(x: T) | Stored(x: T)

  /** Where ringbuf_get stands: not called, past its test for an element, or past reading the slot. */
  datatype Getter<T> = NotGetting | Ready | Loaded(x: T)

  /** The ring with both calls under way, and the histories of elements put and got. */
  datatype Shared<T> = Shared(slots: seq<T>, r: nat, w: nat, putter: Putter<T>, getter: Getter<T>, given: seq<T>, taken: seq<T>)

  datatype Move<T> = CallPut(x: T) | Store | Publish | CallGet | Load | Release

  predicate CanMove<T>(s: Shared<T>, m: Move<T>) {
    match m
    case CallPut(_) => s.putter.NotPutting?
    case Store => s.putter.Room?
    case Publish => s.putter.Stored?
    case CallGet => s.getter.NotGetting?
    case Load => s.getter.Ready?
    case Release => s.getter.Loaded?
  }

  predicate InBounds<T>(s: Shared<T>) { s.r < |s.slots| && s.w < |s.slots| }

  /** One access to the shared ring; a call that finds it full or empty returns at once. */
  function Moved<T>(s: Shared<T>, m: Move<T>): Shared<T>
    requires InBounds(s) && CanMove(s, m)
  {
    match m
    case CallPut(x) => if Next(s.w, |s.slots|) == s.r then s else s.(putter := Room(x))
    case Store => s.(slots := s.slots[s.w := s.putter.x], putter := Stored(s.putter.x))
    case Publish => s.(w := Next(s.w, |s.slots|), putter := NotPutting, given := s.given + [s.putter.x])
    case CallGet => if s.r == s.w then s else s.(getter := Ready)
    case Load => s.(getter := Loaded(s.slots[s.r]))
    case Release => s.(r := Next(s.r, |s.slots|), getter := NotGetting, taken := s.taken + [s.getter.x])
  }

  /**
   The ring's contents are the elements given and not taken, in order; the producer's slot is free and the
   consumer's is the oldest element as long as either is under way.
   */
  predicate SharedInv<T(==)>(s: Shared<T>) {
    && InBounds(s)
    && s.taken + Between(s.slots, s.r, s.w) == s.given
    && (!s.putter.NotPutting? ==> Next(s.w, |s.slots|) != s.r)
    && (s.putter.Stored? ==> s.slots[s.w] == s.putter.x)
    && (!s.getter.NotGetting? ==> s.r != s.w)
    && (s.getter.Loaded? ==> s.getter.x == s.slots[s.r])
  }

  lemma MoveKeepsInv<T>(s: Shared<T>, m: Move<T>)
    requires SharedInv(s) && CanMove(s, m)
    ensures SharedInv(Moved(s, m))
  {
    var n := |s.slots|;
    NextIs(s.w, n);
    NextIs(s.r, n);
    match m {
      case Store => WriteOutside(s.slots, s.r, s.w, s.putter.x);
      case Publish =>
        WriteAdvances(s.slots, s.r, s.w);
        assert s.taken + (Between(s.slots, s.r, s.w) + [s.slots[s.w]]) == s.given + [s.putter.x];
      case Release =>
        ReadAdvances(s.slots, s.r, s.w);
        assert s.taken + ([s.slots[s.r]] + Between(s.slots, Next(s.r, n), s.w)) == s.taken + [s.getter.x] + Between(s.slots, Next(s.r, n), s.w);
      case _ =>
    }
  }

  ghost predicate IsInterleaving<T(!new)>(s: Shared<T>, ms: seq<Move<T>>)
    decreases |ms|
  {
    ms == [] || (InBounds(s) && CanMove(s, ms[0]) && IsInterleaving(Moved(s, ms[0]), ms[1..]))
  }

  ghost function AfterMoves<T(!new)>(s: Shared<T>, ms: seq<Move<T>>): Shared<T>
    requires IsInterleaving(s, ms)
    decreases |ms|
  {
    if ms == [] then s else AfterMoves(Moved(s, ms[0]), ms[1..])
  }

  /** ringbuf_init: the elements of a full ring count as given. */
  function Fresh<T>(slots: seq<T>, full: bool): Shared<T>
    requires slots != []
  {
    Shared(slots, 0, if full then |slots| - 1 else 0, NotPutting, NotGetting, if full then slots[..|slots| - 1] else [], [])
  }

  lemma {:induction false} StaysShared<T(!new)>(s: Shared<T>, ms: seq<Move<T>>)
    requires SharedInv(s) && IsInterleaving(s, ms)
    ensures SharedInv(AfterMoves(s, ms)) && |AfterMoves(s, ms).slots| == |s.slots|
    decreases |ms|
  {
    if ms != [] {
      MoveKeepsInv(s, ms[0]);
      hide SharedInv, CanMove;
      StaysShared(Moved(s, ms[0]), ms[1..]);
    }
  }

  /**
   However one producer and one consumer of a new ring interleave, without any lock: what was taken is a
   prefix of what was given, the rest is in the ring in order, and the ring holds at most one element less
   than its slots.
   */
  lemma RingIsFifo<T(!new)>(slots: seq<T>, full: bool, ms: seq<Move<T>>)
    requires slots != [] && IsInterleaving(Fresh(slots, full), ms)
    ensures var e := AfterMoves(Fresh(slots, full), ms);
            && |e.slots| == |slots| && InBounds(e)
            && e.given == e.taken + Between(e.slots, e.r, e.w) && |Between(e.slots, e.r, e.w)| <= |slots| - 1
  {
    StaysShared(Fresh(slots, full), ms);
    var e := AfterMoves(Fresh(slots, full), ms);
    WriteAdvances(e.slots, e.r, e.w);
  }

  /** A call of either side that is refused was refused rightly: the ring was full, or empty, at that moment. */
  lemma RefusalsAreExact<T>(s: Shared<T>, x: T)
    requires SharedInv(s)
    ensures s.putter.NotPutting? ==> (Moved(s, CallPut(x)) == s <==> |s.given| - |s.taken| == |s.slots| - 1)
    ensures s.getter.NotGetting? ==> (Moved(s, CallGet) == s <==> s.given == s.taken)
  {
    WriteAdvances(s.slots, s.r, s.w);
    ReadAdvances(s.slots, s.r, s.w);
    hide Next, Between;
    assert s.given == s.taken ==> |s.given| == |s.taken|;
  }

  /** Only publishing and releasing change what the ring holds. */
  lemma MoveContents<T>(s: Shared<T>, m: Move<T>)
    requires SharedInv(s) && CanMove(s, m)
    ensures var held, s' := Between(s.slots, s.r, s.w), Moved(s, m);
            && InBounds(s') && |s'.slots| == |s.slots|
            && var held' := Between(s'.slots, s'.r, s'.w);
            match m
            case Publish => held' == held + [s.putter.x]
            case Release => held == [s.getter.x] + held'
            case _ => held' == held
  {
    MoveKeepsInv(s, m);
    NextIs(s.w, |s.slots|);
    match m {
      case Store => WriteOutside(s.slots, s.r, s.w, s.putter.x);
      case Publish => WriteAdvances(s.slots, s.r, s.w);
      case Release => ReadAdvances(s.slots, s.r, s.w);
      case _ =>
    }
  }
}
