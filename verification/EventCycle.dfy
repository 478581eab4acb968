/**
 The completion events on their way round: the interrupt handler takes an unused one from one ring and puts it
 into the other, from which the thread takes it and puts it back. The two run access by access, without a lock.
 */
module EventCycle {
  import opened Results
  import opened Division
  import opened Ring

  /** The rings of unused events and of completions, and the event that handler and thread have in hand. */
  datatype Cycle = Cycle(free: Shared<nat>, out: Shared<nat>, handler: Option<nat>, thread: Option<nat>)

  datatype Side = Side(from: Shared<nat>, to: Shared<nat>, held: Option<nat>)

  /** The next access of either: get from the one ring, then put into the other; nobody looks at a refusal. */
  function Worked(s: Side): Side
    requires InBounds(s.from) && InBounds(s.to)
  {
    match s.held
    case None =>
      (match s.from.getter
       case NotGetting => s.(from := Moved(s.from, CallGet))
       case Ready => s.(from := Moved(s.from, Load))
       case Loaded(e) => s.(from := Moved(s.from, Release), held := Some(e)))
    case Some(e) =>
      (match s.to.putter
       case NotPutting =>
         if Next(s.to.w, |s.to.slots|) == s.to.r then s.(held := None) else s.(to := Moved(s.to, CallPut(e)))
       case Room(_) => s.(to := Moved(s.to, Store))
       case Stored(_) => s.(to := Moved(s.to, Publish), held := None))
  }

  datatype Turn = HandlerTurn | ThreadTurn

  function HandlerSide(c: Cycle): Side { Side(c.free, c.out, c.handler) }

  function ThreadSide(c: Cycle): Side { Side(c.out, c.free, c.thread) }

  predicate Bounded(c: Cycle) { InBounds(c.free) && InBounds(c.out) }

  function Turned(c: Cycle, t: Turn): Cycle
    requires Bounded(c)
  {
    match t
    case HandlerTurn => var s := Worked(HandlerSide(c)); c.(free := s.from, out := s.to, handler := s.held)
    case ThreadTurn => var s := Worked(ThreadSide(c)); c.(out := s.from, free := s.to, thread := s.held)
  }

  /** As set up: all events in a ring with a slot to spare, and an empty ring of the same size. */
  function Initial(nevents: nat, spare: nat, out: seq<nat>): Cycle
    requires |out| == nevents + 1
  {
    Cycle(Fresh(seq(nevents, i => i) + [spare], true), Fresh(out, false), None, None)
  }

  // ---- The invariant ------------------------------------------------------------------------------------

  /** One call at a time: a side gets with empty hands and puts what it has. */
  predicate InTurn(s: Side) {
    match s.held
    case None => s.to.putter.NotPutting?
    case Some(e) => s.from.getter.NotGetting? && (s.to.putter.NotPutting? || s.to.putter.x == e)
  }

  /** The events in a ring. */
  function InRing(s: Shared<nat>): multiset<nat> {
    if InBounds(s) then multiset(Between(s.slots, s.r, s.w)) else multiset{}
  }

  function InHand(held: Option<nat>): multiset<nat> { if held.Some? then multiset{held.value} else multiset{} }

  function OfSide(s: Side): multiset<nat> { InRing(s.from) + InRing(s.to) + InHand(s.held) }

  /** Everything that anyone has. */
  function All(c: Cycle): multiset<nat> { InRing(c.free) + InRing(c.out) + InHand(c.handler) + InHand(c.thread) }

  lemma AllOfSides(c: Cycle)
    ensures All(c) == OfSide(HandlerSide(c)) + InHand(c.thread) == OfSide(ThreadSide(c)) + InHand(c.handler)
  {
  }

  function Hand(held: Option<nat>): seq<nat> { if held.Some? then [held.value] else [] }

  /** Events are passed on in the order in which they were taken, after those that were there at first. */
  predicate InOrder(s: Side, first: seq<nat>) { first + s.from.taken == s.to.given + Hand(s.held) }

  function Numbers(nevents: nat): seq<nat> { seq(nevents, i => i) }

  /** Every event is in one of the rings or in one of the hands, exactly once. */
  ghost predicate CycleInv(c: Cycle, nevents: nat) {
    && SharedInv(c.free) && SharedInv(c.out)
    && |c.free.slots| == |c.out.slots| == nevents + 1
    && InTurn(HandlerSide(c)) && InTurn(ThreadSide(c))
    && All(c) == multiset(Numbers(nevents))
    && InOrder(HandlerSide(c), []) && InOrder(ThreadSide(c), Numbers(nevents))
  }

  /** With a slot more than events no put is refused. */
  lemma PutHasRoom(c: Cycle, nevents: nat)
    requires CycleInv(c, nevents)
    ensures c.handler.Some? ==> Next(c.out.w, |c.out.slots|) != c.out.r
    ensures c.thread.Some? ==> Next(c.free.w, |c.free.slots|) != c.free.r
  {
    WriteAdvances(c.out.slots, c.out.r, c.out.w);
    WriteAdvances(c.free.slots, c.free.r, c.free.w);
    assert |multiset(Numbers(nevents))| == nevents;
    assert |All(c)| == |InRing(c.free)| + |InRing(c.out)| + |InHand(c.handler)| + |InHand(c.thread)|;
    hide Between, Next, InTurn;
  }

  lemma MoveInRing(s: Shared<nat>, m: Move<nat>)
    requires SharedInv(s) && CanMove(s, m)
    ensures var s' := Moved(s, m);
            && SharedInv(s') && |s'.slots| == |s.slots|
            && match m
               case Publish => InRing(s') == InRing(s) + multiset{s.putter.x}
               case Release => InRing(s) == InRing(s') + multiset{s.getter.x}
               case _ => InRing(s') == InRing(s)
  {
    MoveKeepsInv(s, m);
    MoveContents(s, m);
    hide Between, Next;
  }

  /** One access of a side that puts only where there is room. */
  predicate Kept(s: Side, s': Side, first: seq<nat>) {
    && SharedInv(s'.from) && SharedInv(s'.to) && InTurn(s')
    && |s'.from.slots| == |s.from.slots| && |s'.to.slots| == |s.to.slots|
    && s'.from.putter == s.from.putter && s'.to.getter == s.to.getter
    && s'.from.given == s.from.given && s'.to.taken == s.to.taken
    && OfSide(s') == OfSide(s) && (InOrder(s, first) ==> InOrder(s', first))
  }

  lemma TakenInOrder(first: seq<nat>, taken: seq<nat>, given: seq<nat>, e: nat)
    requires first + taken == given + []
    ensures first + (taken + [e]) == given + [e]
  {
    assert first + (taken + [e]) == first + taken + [e];
  }

  lemma GetKeeps(s: Side, first: seq<nat>)
    requires SharedInv(s.from) && SharedInv(s.to) && InTurn(s) && s.held.None?
    ensures Kept(s, Worked(s), first)
  {
    hide SharedInv, InRing, Between, Next;
    if s.from.getter.Loaded? && InOrder(s, first) {
      TakenInOrder(first, s.from.taken, s.to.given, s.from.getter.x);
    }
    MoveInRing(s.from, match s.from.getter case NotGetting => CallGet case Ready => Load case Loaded(_) => Release);
  }

  lemma PutKeeps(s: Side, first: seq<nat>)
    requires SharedInv(s.from) && SharedInv(s.to) && InTurn(s) && s.held.Some?
    requires Next(s.to.w, |s.to.slots|) != s.to.r
    ensures Kept(s, Worked(s), first)
  {
    hide SharedInv, InRing, Between, Next;
    MoveInRing(s.to, match s.to.putter case NotPutting => CallPut(s.held.value) case Room(_) => Store case Stored(_) => Publish);
  }

  lemma SideKeeps(s: Side, first: seq<nat>)
    requires SharedInv(s.from) && SharedInv(s.to) && InTurn(s)
    requires s.held.Some? ==> Next(s.to.w, |s.to.slots|) != s.to.r
    ensures Kept(s, Worked(s), first)
  {
    hide SharedInv, InTurn, Kept, Worked;
    if s.held.None? {
      GetKeeps(s, first);
    } else {
      PutKeeps(s, first);
    }
  }

  /** A side does not notice what the other does at its own ends of the rings. */
  lemma OtherSideKept(s: Side, s': Side, first: seq<nat>)
    requires InTurn(s) && InOrder(s, first) && s'.held == s.held
    requires s'.from.getter == s.from.getter && s'.from.taken == s.from.taken
    requires s'.to.putter == s.to.putter && s'.to.given == s.to.given
    ensures InTurn(s') && InOrder(s', first)
  {
  }

  lemma TurnKeepsInv(c: Cycle, nevents: nat, t: Turn)
    requires CycleInv(c, nevents)
    ensures CycleInv(Turned(c, t), nevents)
  {
    PutHasRoom(c, nevents);
    var c' := Turned(c, t);
    AllOfSides(c);
    AllOfSides(c');
    hide SharedInv, Next, Worked, OfSide, All, Numbers, InTurn, InOrder;
    match t {
      case HandlerTurn =>
        SideKeeps(HandlerSide(c), []);
        OtherSideKept(ThreadSide(c), ThreadSide(c'), Numbers(nevents));
      case ThreadTurn =>
        SideKeeps(ThreadSide(c), Numbers(nevents));
        OtherSideKept(HandlerSide(c), HandlerSide(c'), []);
    }
  }

  lemma InitialInv(nevents: nat, spare: nat, out: seq<nat>)
    requires |out| == nevents + 1
    ensures CycleInv(Initial(nevents, spare, out), nevents)
  {
    assert (Numbers(nevents) + [spare])[..nevents] == Numbers(nevents);
    assert Numbers(nevents) + [] == Numbers(nevents);
  }

  // ---- Every schedule -----------------------------------------------------------------------------------

  ghost function AfterTurns(c: Cycle, ts: seq<Turn>): (r: Cycle)
    requires Bounded(c)
    ensures Bounded(r)
    decreases |ts|
  {
    if ts == [] then c else AfterTurns(Turned(c, ts[0]), ts[1..])
  }

  lemma {:induction false} TurnsKeepInv(c: Cycle, nevents: nat, ts: seq<Turn>)
    requires CycleInv(c, nevents)
    ensures CycleInv(AfterTurns(c, ts), nevents)
    decreases |ts|
  {
    if ts != [] {
      TurnKeepsInv(c, nevents, ts[0]);
      TurnsKeepInv(Turned(c, ts[0]), nevents, ts[1..]);
    }
  }

  /**
   However handler and thread interleave: every event is at each moment in exactly one ring or hand, neither
   put is ever refused, and what the thread has got is what the handler has put, in order.
   */
  lemma EventsGoRound(nevents: nat, spare: nat, out: seq<nat>, ts: seq<Turn>)
    requires |out| == nevents + 1
    ensures var c := AfterTurns(Initial(nevents, spare, out), ts);
            && All(c) == multiset(Numbers(nevents))
            && (c.handler.Some? ==> Next(c.out.w, |c.out.slots|) != c.out.r)
            && (c.thread.Some? ==> Next(c.free.w, |c.free.slots|) != c.free.r)
            && c.out.taken <= c.out.given
  {
    InitialInv(nevents, spare, out);
    hide CycleInv, Initial;
    TurnsKeepInv(Initial(nevents, spare, out), nevents, ts);
    var c := AfterTurns(Initial(nevents, spare, out), ts);
    PutHasRoom(c, nevents);
    assert SharedInv(c.out);
  }

  /** What the handler has taken begins like the events there were at first followed by what it has taken. */
  lemma TakenBefore(c: Cycle, nevents: nat)
    requires CycleInv(c, nevents)
    ensures c.free.taken <= Numbers(nevents) + c.free.taken
  {
    hide Between, Numbers, All;
    var first := Numbers(nevents);
    assert [] + c.free.taken == c.free.taken;
    assert c.free.taken <= c.free.given <= first + c.out.taken;
    assert c.out.taken <= c.out.given <= c.free.taken;
  }

  lemma RemNext(k: nat, n: nat)
    requires n > 0
    ensures Rem(k + n, n) == Rem(k, n) && (k < n ==> Rem(k, n) == k)
  {
    Split(k, n);
    TimesNext(Quot(k, n), n);
    SplitUnique(Quot(k, n) + 1, Rem(k, n), k + n, n);
    if k < n {
      SplitUnique(0, k, k, n);
    }
  }

  /** The events are used in turn: the k-th that the handler takes is number k modulo their count. */
  lemma {:induction false} UsedInTurn(c: Cycle, nevents: nat, k: nat)
    requires CycleInv(c, nevents) && nevents > 0 && k < |c.free.taken|
    ensures c.free.taken[k] == Rem(k, nevents)
  {
    TakenBefore(c, nevents);
    hide CycleInv, Rem;
    assert c.free.taken[k] == (Numbers(nevents) + c.free.taken)[k];
    if k < nevents {
      RemNext(k, nevents);
    } else {
      UsedInTurn(c, nevents, k - nevents);
      RemNext(k - nevents, nevents);
    }
  }
}
