/**
 The DMA interrupt handler access by access, while transfers are queued on its channel from elsewhere: the
 handler takes no lock, and the queueing code shuts out only the interrupts of its own processor.
 */
module Interrupts {
  import opened Results
  import opened Scheduler

  /**
   Where do_interrupt stands on a channel: not called; status read, before its first look at the queue; past
   it, before taking the head off; before its second look, with the transfer it took off; found the queue
   empty, before setting the channel idle; or found a transfer, before starting it.
   */
  datatype Pos = Away | Looking(error: bool) | Taking(error: bool) | Took(error: bool, x: nat) | Nothing | Found(x: nat)

  datatype Live = Live(ch: Chan, pos: Pos)

  /** An interrupt arrives; the handler's next access; or a whole call of ppcdma_queue_chain. */
  datatype Access = Arrive(error: bool) | Go | Queue(x: nat, len: nat)

  /** The handler is not called again before it has returned. */
  predicate CanAccess(l: Live, a: Access) {
    match a
    case Arrive(_) => l.pos.Away?
    case Go => !l.pos.Away? && (l.pos.Taking? ==> l.ch.q != [])
    case Queue(_, _) => true
  }

  /** The handler's next access; state is DMA_ERR_STOP from an error status to the end of the handler. */
  function Advanced(l: Live): Live
    requires CanAccess(l, Go)
  {
    var ch := l.ch;
    match l.pos
    case Looking(error) => l.(pos := if ch.q == [] then Nothing else Taking(error))
    case Taking(error) => Live(ch.(q := ch.q[1..], done := ch.done + [ch.q[0]]), Took(error, ch.q[0]))
    case Took(error, _) =>
      if error then Live(ch.(state := Idle), Away) else l.(pos := if ch.q == [] then Nothing else Found(ch.q[0]))
    case Nothing => Live(ch.(state := Idle), Away)
    case Found(x) => Live(Started(ch, x), Away)
  }

  /** -EAGAIN leaves the channel as it is. */
  function Queueing(l: Live, x: nat, len: nat): Live { l.(ch := QueueChain(l.ch, x, len).GetOr(l.ch)) }

  function Accessed(l: Live, a: Access): Live
    requires CanAccess(l, a)
  {
    match a
    case Arrive(error) => Live(l.ch.(hw := None, state := if error then ErrStop else l.ch.state), Looking(error))
    case Go => Advanced(l)
    case Queue(x, len) => Queueing(l, x, len)
  }

  // ---- The window -----------------------------------------------------------------------------------------------

  /**
   The handler has decided that the channel will be idle, or was called for an idle one, and queueing is
   still accepted.
   */
  predicate Window(l: Live) { !l.ch.state.ErrStop? && (l.pos.Nothing? || (l.pos.Looking? && l.ch.q == [])) }

  /** No error interrupt with transfers waiting, and no transfer queued in the window. */
  predicate Guarded(l: Live, a: Access) {
    match a
    case Arrive(error) => error ==> |l.ch.q| <= 1
    case Go => true
    case Queue(_, _) => !Window(l)
  }

  /** What the handler has made of the channel so far. */
  predicate LiveInv(l: Live) {
    var ch := l.ch;
    && ch.queued == ch.done + ch.q
    && (!l.pos.Away? ==> ch.hw == None)
    && match l.pos
       case Away => ChanInv(ch)
       case Looking(error) => if error then ch.state.ErrStop? && |ch.q| <= 1 else if ch.q == [] then ch.state.Idle? else ch.state.Running?
       case Taking(error) => ch.q != [] && if error then ch.state.ErrStop? && |ch.q| == 1 else ch.state.Running?
       case Took(error, x) => ch.done != [] && ch.done[|ch.done| - 1] == x && if error then ch.state.ErrStop? && ch.q == [] else ch.state.Running?
       case Nothing => ch.q == [] && !ch.state.Uninit?
       case Found(x) => ch.q != [] && ch.q[0] == x && ch.state.Running?
  }

  lemma AccessKeepsInv(l: Live, a: Access)
    requires LiveInv(l) && CanAccess(l, a) && Guarded(l, a)
    ensures LiveInv(Accessed(l, a))
  {
    match a {
      case Queue(x, _) => assert l.ch.done + (l.ch.q + [x]) == l.ch.done + l.ch.q + [x];
      case Go =>
        if l.pos.Taking? {
          assert l.ch.q == [l.ch.q[0]] + l.ch.q[1..];
          assert l.ch.done + [l.ch.q[0]] + l.ch.q[1..] == l.ch.done + l.ch.q;
        }
      case Arrive(_) =>
    }
  }

  // ---- The handler as one step ----------------------------------------------------------------------------------

  /** A step of the scheduler's channels. */
  datatype Whole = Interrupted(error: bool) | Enqueued(x: nat, len: nat)

  function Applied(ch: Chan, w: Whole): Chan {
    match w
    case Interrupted(error) => AfterInterrupt(ch, error)
    case Enqueued(x, len) => QueueChain(ch, x, len).GetOr(ch)
  }

  function AllApplied(ch: Chan, ws: seq<Whole>): Chan
    decreases |ws|
  {
    if ws == [] then ch else AllApplied(Applied(ch, ws[0]), ws[1..])
  }

  /**
   The scheduler's steps that one access amounts to: the interrupt takes place where the handler settles what
   the channel does next, and a refused transfer is no step.
   */
  function Effect(l: Live, a: Access): seq<Whole>
    requires CanAccess(l, a)
  {
    match a
    case Arrive(_) => []
    case Go =>
      (match l.pos
       case Looking(error) => if l.ch.q == [] then [Interrupted(error)] else []
       case Took(error, _) => [Interrupted(error)]
       case _ => [])
    case Queue(x, len) => if l.ch.state.ErrStop? then [] else [Enqueued(x, len)]
  }

  /** The scheduler's channel: a transfer that the handler has not settled is still at the head and in hardware. */
  function Abs(l: Live): Chan
    requires LiveInv(l)
  {
    var ch := l.ch;
    match l.pos
    case Away => ch
    case Looking(_) => if ch.q == [] then ch.(state := Idle) else Started(ch, ch.q[0])
    case Taking(_) => Started(ch, ch.q[0])
    case Took(_, x) => Started(ch.(q := [x] + ch.q, done := ch.done[..|ch.done| - 1]), x)
    case Nothing => ch.(state := Idle)
    case Found(x) => Started(ch, x)
  }

  lemma AbsInOrder(l: Live)
    requires LiveInv(l)
    ensures ChanInv(Abs(l))
  {
    if l.pos.Took? {
      var done := l.ch.done;
      assert done == done[..|done| - 1] + [l.pos.x];
      assert done[..|done| - 1] + ([l.pos.x] + l.ch.q) == done + l.ch.q;
    }
  }

  lemma TakingRefines(l: Live)
    requires LiveInv(l) && l.pos.Taking?
    ensures LiveInv(Advanced(l)) && Abs(Advanced(l)) == Abs(l)
  {
    AccessKeepsInv(l, Go);
    var ch := l.ch;
    assert (ch.done + [ch.q[0]])[..|ch.done|] == ch.done;
    assert [ch.q[0]] + ch.q[1..] == ch.q;
  }

  lemma SettlingRefines(l: Live)
    requires LiveInv(l) && l.pos.Took?
    ensures LiveInv(Advanced(l)) && Abs(Advanced(l)) == AfterInterrupt(Abs(l), l.pos.error)
  {
    AccessKeepsInv(l, Go);
    hide ChanInv;
    var ch := l.ch;
    assert ch.done == ch.done[..|ch.done| - 1] + [l.pos.x];
    assert ([l.pos.x] + ch.q)[1..] == ch.q;
  }

  lemma GoRefines(l: Live)
    requires LiveInv(l) && CanAccess(l, Go)
    ensures LiveInv(Advanced(l)) && Abs(Advanced(l)) == AllApplied(Abs(l), Effect(l, Go))
  {
    AccessKeepsInv(l, Go);
    if l.pos.Taking? {
      TakingRefines(l);
    } else if l.pos.Took? {
      SettlingRefines(l);
    }
  }

  lemma QueueRefines(l: Live, x: nat, len: nat)
    requires LiveInv(l) && !Window(l)
    ensures LiveInv(Queueing(l, x, len)) && Abs(Queueing(l, x, len)) == AllApplied(Abs(l), Effect(l, Queue(x, len)))
  {
    AccessKeepsInv(l, Queue(x, len));
    if l.pos.Took? {
      assert [l.pos.x] + (l.ch.q + [x]) == [l.pos.x] + l.ch.q + [x];
    }
  }

  ghost predicate IsGuarded(l: Live, accesses: seq<Access>)
    decreases |accesses|
  {
    accesses == [] ||
      (CanAccess(l, accesses[0]) && Guarded(l, accesses[0]) && IsGuarded(Accessed(l, accesses[0]), accesses[1..]))
  }

  ghost function AfterAll(l: Live, accesses: seq<Access>): Live
    requires IsGuarded(l, accesses)
    decreases |accesses|
  {
    if accesses == [] then l else AfterAll(Accessed(l, accesses[0]), accesses[1..])
  }

  ghost function Effects(l: Live, accesses: seq<Access>): seq<Whole>
    requires IsGuarded(l, accesses)
    decreases |accesses|
  {
    if accesses == [] then [] else Effect(l, accesses[0]) + Effects(Accessed(l, accesses[0]), accesses[1..])
  }

  /**
   As long as nothing is queued in the window, every interleaving of the handler's accesses with calls that
   queue transfers comes to the same as whole interrupts and whole calls, one after the other.
   */
  lemma {:induction false} HandlerIsAtomic(l: Live, accesses: seq<Access>)
    requires LiveInv(l) && IsGuarded(l, accesses)
    ensures var e := AfterAll(l, accesses);
            LiveInv(e) && ChanInv(Abs(e)) && Abs(e) == AllApplied(Abs(l), Effects(l, accesses))
    decreases |accesses|
  {
    hide LiveInv, ChanInv, Abs, Window, Effect, Applied;
    if accesses == [] {
      AbsInOrder(l);
    } else {
      var a := accesses[0];
      AccessKeepsInv(l, a);
      match a {
        case Arrive(_) => ArriveRefines(l, a.error);
        case Go => GoRefines(l);
        case Queue(x, len) => QueueRefines(l, x, len);
      }
      var l' := Accessed(l, a);
      HandlerIsAtomic(l', accesses[1..]);
      AppliedInTurn(Abs(l), Effect(l, a), Effects(l', accesses[1..]));
    }
  }

  lemma ArriveRefines(l: Live, error: bool)
    requires LiveInv(l) && CanAccess(l, Arrive(error)) && Guarded(l, Arrive(error))
    ensures LiveInv(Accessed(l, Arrive(error)))
    ensures Abs(Accessed(l, Arrive(error))) == AllApplied(Abs(l), Effect(l, Arrive(error)))
  {
  }

  lemma {:induction false} AppliedInTurn(ch: Chan, first: seq<Whole>, second: seq<Whole>)
    ensures AllApplied(ch, first + second) == AllApplied(AllApplied(ch, first), second)
    decreases |first|
  {
    if first == [] {
      assert first + second == second;
    } else {
      assert (first + second)[1..] == first[1..] + second;
      AppliedInTurn(Applied(ch, first[0]), first[1..], second);
    }
  }

  // ---- What happens in the window -------------------------------------------------------------------------------

  /** The handler runs to its end. */
  function Finish(l: Live): Live
    requires l.pos.Taking? ==> l.ch.q != []
    decreases match l.pos case Away => 0 case Nothing => 1 case Found(_) => 1 case Took(_, _) => 2 case Taking(_) => 3 case Looking(_) => 4
  {
    if l.pos.Away? then l else Finish(Advanced(l))
  }

  /** A transfer may be queued in any state that the handler passes through but the window, and in no other. */
  lemma WindowIsExact(l: Live, x: nat, len: nat)
    requires LiveInv(l)
    ensures ChanInv(Finish(Queueing(l, x, len)).ch) <==> !Window(l)
  {
    if Window(l) {
      QueuedInWindow(l, x, len);
    } else {
      AccessKeepsInv(l, Queue(x, len));
      FinishKeepsInv(Queueing(l, x, len));
    }
  }

  lemma {:induction false} FinishKeepsInv(l: Live)
    requires LiveInv(l)
    ensures LiveInv(Finish(l)) && Finish(l).pos.Away?
    decreases match l.pos case Away => 0 case Nothing => 1 case Found(_) => 1 case Took(_, _) => 2 case Taking(_) => 3 case Looking(_) => 4
  {
    if !l.pos.Away? {
      AccessKeepsInv(l, Go);
      FinishKeepsInv(Advanced(l));
    }
  }

  /**
   A transfer queued in the window: after a completion it is left waiting on a channel that is idle; on a
   channel that was idle it is started, and then taken for idle or for completed while the hardware works on it.
   */
  lemma QueuedInWindow(l: Live, x: nat, len: nat)
    requires LiveInv(l) && Window(l)
    ensures var ch := Finish(Queueing(l, x, len)).ch;
            && ch.state.Idle? && ch.queued == l.ch.queued + [x]
            && (l.pos.Nothing? ==> ch.q == [x] && ch.done == l.ch.done)
            && (l.pos.Looking? ==> ch.q == [] && ch.done == l.ch.done + [x])
            && ch.hw == if l.ch.state.Running? then None else Some(x)
  {
    var m := Queueing(l, x, len);
    assert m.ch.q == [x];
    if l.pos.Looking? {
      var taking := Advanced(m);
      var took := Advanced(taking);
      var nothing := Advanced(took);
      assert taking.pos.Taking? && took.pos.Took? && nothing.pos.Nothing?;
      assert Finish(taking) == Finish(took) == Finish(nothing) == Advanced(nothing);
    }
  }

  /** The stranded transfer is overtaken by the next one, and reported complete when that one ends. */
  lemma StrandedIsOvertaken(l: Live, x: nat, len: nat, y: nat, len': nat)
    requires LiveInv(l) && l.pos.Nothing? && l.ch.state.Running?
    ensures var ch := Finish(Queueing(l, x, len)).ch;
            var next := QueueChain(ch, y, len');
            next.Some? && next.value.hw == Some(y) && AfterInterrupt(next.value, false).done == l.ch.done + [x]
  {
    QueuedInWindow(l, x, len);
  }
}
