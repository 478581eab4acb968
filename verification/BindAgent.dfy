/**
 The ready and done operations of the transfer site as code: each runs under the bind's lock where the
 driver takes it, and together they are the steps of the bind protocol.
 */
module BindAgent {
  import opened Votes
  import opened BindProtocol

  /** vfi_dma_complete, when nobody else touches the bind meanwhile. */
  function Callback(b: Bind): Bind
    requires b.stage.Taken?
  {
    Apply(Apply(Apply(Apply(Apply(Apply(b, Open), Clear(Dst)), Signal(Dst)), Clear(Src)), Signal(Src)), Close)
  }

  /** A vote cast at the transfer site, followed by the queueing that it may call for. */
  function ReadyStep(b: Bind, s: Side): Bind
    requires Enabled(b, Vote(s))
  {
    var v := Apply(b, Vote(s));
    if v.claims > b.claims then Apply(v, Queue) else v
  }

  lemma CallbackFields(b: Bind)
    requires b.stage.Taken?
    ensures Callback(b) == b.(word := Word(false, false, b.word.pend), stage := Rest, src := b.src.DoneSent(), dst := b.dst.DoneSent())
  {
  }

  /** The first and the last step of the callback: the window opens and closes, and nothing is ready. */
  lemma WindowSteps(b: Bind)
    requires BindInv(b) && b.stage.Taken?
    ensures Apply(b, Open) == b.(word := b.word.Toggled(), stage := Opened) && !b.word.Toggled().Ready()
    ensures Enabled(Apply(b, Open), Clear(Dst)) && Enabled(Apply(Apply(b, Open), Clear(Dst)), Signal(Dst))
    ensures var b2 := Apply(Apply(Apply(b, Open), Clear(Dst)), Signal(Dst));
            Enabled(b2, Clear(Src)) && Enabled(Apply(b2, Clear(Src)), Signal(Src)) &&
            var b3 := Apply(Apply(b2, Clear(Src)), Signal(Src));
            b2.word == Word(true, false, true) && b3.word == Word(false, false, true) && b3.stage.SrcSignalled? &&
            Callback(b) == b3.(word := b3.word.Toggled(), stage := Rest) == Apply(b3, Close) && !b3.word.Toggled().Ready()
    ensures b.word == Word(true, true, false) && Apply(b, Open).word == Word(true, true, true)
    ensures var b1 := Apply(b, Open);
            Apply(b1, Clear(Dst)).word == b1.word.With(Dst, false) == Word(true, false, true)
  {
    TakenIsAlone(b);
    hide BindInv;
  }

  lemma NextStage(b: Bind)
    ensures b.stage.Taken? ==> Apply(b, Open).stage.Opened?
    ensures b.stage.Opened? ==> Apply(b, Clear(Dst)).stage.DstCleared?
    ensures b.stage.DstCleared? ==> Apply(b, Signal(Dst)).stage.DstSignalled?
    ensures b.stage.DstSignalled? ==> Apply(b, Clear(Src)).stage.SrcCleared?
    ensures b.stage.SrcCleared? ==> Apply(b, Signal(Src)).stage.SrcSignalled?
  {
  }

  lemma CallbackKeepsInv(b: Bind)
    requires BindInv(b) && b.stage.Taken?
    ensures BindInv(Callback(b))
  {
    hide BindInv, Apply;
    NextStage(b);
    NextStage(Apply(b, Open));
    NextStage(Apply(Apply(b, Open), Clear(Dst)));
    NextStage(Apply(Apply(Apply(b, Open), Clear(Dst)), Signal(Dst)));
    NextStage(Apply(Apply(Apply(Apply(b, Open), Clear(Dst)), Signal(Dst)), Clear(Src)));
    var b1 := Apply(b, Open);
    var b2 := Apply(b1, Clear(Dst));
    var b3 := Apply(b2, Signal(Dst));
    var b4 := Apply(b3, Clear(Src));
    var b5 := Apply(b4, Signal(Src));
    StepKeepsInv(b, Open);
    StepKeepsInv(b1, Clear(Dst));
    StepKeepsInv(b2, Signal(Dst));
    StepKeepsInv(b3, Clear(Src));
    StepKeepsInv(b4, Signal(Src));
    StepKeepsInv(b5, Close);
  }

  /** Undisturbed, the callback retires one vote of each side, tells each side once, and queues nothing. */
  lemma CallbackRetiresBothVotes(b: Bind)
    requires BindInv(b) && b.stage.Taken?
    ensures var e := Callback(b);
            && BindInv(e) && e.stage.Rest? && e.word == Word(false, false, false) && e.claims + e.inDma == 0 && e.issued == b.issued
            && (forall s: Side :: if b.End(s).remote then e.End(s).doneFly == b.End(s).doneFly + 1
                                  else e.End(s).completes == b.End(s).completes + 1 == e.End(s).starts)
  {
    CallbackFields(b);
    CallbackKeepsInv(b);
    TakenIsAlone(b);
    hide BindInv, Callback;
    forall s: Side | !b.End(s).remote
      ensures Callback(b).End(s).starts == Callback(b).End(s).completes
    {
      SettledEnd(Callback(b), s);
    }
  }

  lemma TakenIsAlone(b: Bind)
    requires BindInv(b) && b.stage.Taken?
    ensures b.claims + b.inDma == 0 && !b.word.pend
  {
    hide EndInv;
  }

  lemma SettledEnd(b: Bind, s: Side)
    requires BindInv(b) && b.stage.Rest? && !b.word.Bit(s) && !b.End(s).remote
    ensures b.End(s).starts == b.End(s).completes
  {
    assert EndInv(b, s);
  }

  lemma Joined<T>(s: seq<T>, a: seq<T>, b: seq<T>, c: seq<T>)
    ensures s + a + b + c == s + (a + b + c)
  {
  }

  /** The actions of vfi_dma_complete in the order of the code. */
  const CALLBACK := [Open, Clear(Dst), Signal(Dst), Clear(Src), Signal(Src), Close]

  /**
   A bind at the transfer site: its vote word, and what its operations hand on. `srcTold` and `dstTold`
   count completions of the side's event list, or doorbells on their way to it when it is remote; `claims`
   counts voters that are to queue the bind, and `queued` the copies of it in the engine. `at` is where
   the completion callback stands, and `trace` the actions of the protocol that were carried out.
   */
  class Agent {
    const votes: BindVotes
    const srcRemote: bool
    const dstRemote: bool
    var srcTold: nat
    var dstTold: nat
    var claims: nat
    var queued: nat
    ghost var at: Stage
    ghost var trace: seq<Action>

    constructor (srcRemote: bool, dstRemote: bool)
      ensures fresh(votes) && this.srcRemote == srcRemote && this.dstRemote == dstRemote && trace == []
      ensures forall b :: Initial(b) && b.src.remote == srcRemote && b.dst.remote == dstRemote ==> Agrees(b)
    {
      votes := new BindVotes();
      this.srcRemote, this.dstRemote := srcRemote, dstRemote;
      srcTold, dstTold, claims, queued := 0, 0, 0, 0;
      at, trace := Rest, [];
    }

    predicate Remote(s: Side) { if s.Src? then srcRemote else dstRemote }

    /** The agent's part of a bind's protocol state. */
    ghost predicate Agrees(b: Bind)
      reads this, votes
    {
      && Proper(votes.ready) && votes.State() == b.word && claims == b.claims && queued == b.inDma && at == b.stage
      && b.src.remote == srcRemote && srcTold == Told(b.src)
      && b.dst.remote == dstRemote && dstTold == Told(b.dst)
    }

    lemma RemoteIs(b: Bind)
      requires Agrees(b)
      ensures forall s: Side :: Remote(s) == b.End(s).remote
    {
    }

    lemma AgreesStill(b: Bind, b': Bind)
      requires Agrees(b) && SameHere(b, b')
      ensures Agrees(b')
    {
    }

    /** vfi_bind_src_ready and vfi_bind_dst_ready, of a start here or of a doorbell; `a` is that vote or arrival. */
    method Cast(s: Side, ghost b: Bind, ghost a: Action) returns (asserted: bool)
      requires Agrees(b) && Enabled(b, a) && (a == RecvReady(s) || (a == Vote(s) && !b.End(s).remote))
      modifies votes, this`claims, this`trace
      ensures Agrees(Apply(b, a)) && trace == old(trace) + [a]
      ensures asserted <==> Asserts(b, a)
    {
      var ready;
      ready, asserted := votes.SideReady(s);
      if ready {
        claims := claims + 1;
      }
      trace := trace + [a];
    }

    /** The voter that made the bind ready calls queue_transfer. */
    method QueueBind(ghost b: Bind)
      requires Agrees(b) && Enabled(b, Queue)
      modifies this`claims, this`queued, this`trace
      ensures Agrees(Apply(b, Queue)) && trace == old(trace) + [Queue]
    {
      claims := claims - 1;
      queued := queued + 1;
      trace := trace + [Queue];
    }

    /** vfi_local_src_ready and vfi_local_dst_ready, for an endpoint at this site. */
    method LocalReady(s: Side, ghost b: Bind) returns (asserted: bool)
      requires Agrees(b) && !b.End(s).remote && Enabled(b, Vote(s)) && b.claims == 0
      modifies votes, this`claims, this`queued, this`trace
      ensures Agrees(ReadyStep(b, s)) && (asserted <==> Asserts(b, Vote(s)))
      ensures trace == old(trace) + if Apply(b, Vote(s)).claims > 0 then [Vote(s), Queue] else [Vote(s)]
    {
      asserted := Cast(s, b, Vote(s));
      if claims > 0 {
        QueueBind(Apply(b, Vote(s)));
      }
    }

    /** The completion thread takes the finished transfer and calls vfi_dma_complete. */
    method TakeDone(ghost b: Bind)
      requires Agrees(b) && Enabled(b, Take)
      modifies this`queued, this`at, this`trace
      ensures Agrees(Apply(b, Take)) && trace == old(trace) + [Take]
    {
      queued := queued - 1;
      at, trace := Taken, trace + [Take];
    }

    /** vfi_bind_done_pending for the first time; with the window open the bind is not ready. */
    method OpenWindow(ghost b: Bind) returns (ready: bool)
      requires Agrees(b) && Enabled(b, Open) && !b.word.pend
      modifies votes, this`at, this`trace
      ensures Agrees(Apply(b, Open)) && trace == old(trace) + [Open] && !ready
      ensures votes.log == old(votes.log) + [b.word.Toggled()]
    {
      ready := votes.DonePending();
      at, trace := Opened, trace + [Open];
    }

    /** vfi_bind_done_pending for the second time; whether the bind was ready and is now to be queued. */
    method CloseWindow(ghost b: Bind) returns (ready: bool)
      requires Agrees(b) && Enabled(b, Close)
      modifies votes, this`at, this`trace
      ensures Agrees(Apply(b, Close)) && trace == old(trace) + [Close]
      ensures ready <==> Apply(b, Close).stage.Requeueing?
      ensures votes.log == old(votes.log) + [b.word.Toggled()]
    {
      ready := votes.DonePending();
      at, trace := if ready then Requeueing else Rest, trace + [Close];
    }

    /** The queue_transfer of the second vfi_bind_done_pending. */
    method QueueAgain(ghost b: Bind)
      requires Agrees(b) && Enabled(b, Requeue)
      modifies this`queued, this`at, this`trace
      ensures Agrees(Apply(b, Requeue)) && trace == old(trace) + [Requeue]
    {
      queued := queued + 1;
      at, trace := Rest, trace + [Requeue];
    }

    /** vfi_bind_src_done and vfi_bind_dst_done */
    method ClearVote(s: Side, ghost b: Bind) returns (asserted: bool)
      requires Agrees(b) && Enabled(b, Clear(s))
      modifies votes, this`at, this`trace
      ensures Agrees(Apply(b, Clear(s))) && trace == old(trace) + [Clear(s)]
      ensures votes.log == old(votes.log) + [b.word.With(s, false)]
      ensures asserted <==> Asserts(b, Clear(s))
    {
      asserted := votes.SideDone(s);
      at, trace := SignalAt(s), trace + [Clear(s)];
    }

    /** The side's event list is completed, or the doorbell to it leaves. */
    method Tell(s: Side, ghost b: Bind)
      requires Agrees(b) && Enabled(b, Signal(s))
      modifies this`srcTold, this`dstTold, this`at, this`trace
      ensures Agrees(Apply(b, Signal(s))) && trace == old(trace) + [Signal(s)]
    {
      if s.Src? {
        srcTold := srcTold + 1;
      } else {
        dstTold := dstTold + 1;
      }
      at, trace := Signalled(s), trace + [Signal(s)];
    }

    /** A done doorbell reaches its site. */
    method Delivered(s: Side, ghost b: Bind)
      requires Agrees(b) && Enabled(b, RecvDone(s)) && b.End(s).remote
      modifies this`srcTold, this`dstTold, this`trace
      ensures Agrees(Apply(b, RecvDone(s))) && trace == old(trace) + [RecvDone(s)]
    {
      if s.Src? {
        srcTold := srcTold - 1;
      } else {
        dstTold := dstTold - 1;
      }
      trace := trace + [RecvDone(s)];
    }

    /** src_done and dst_done of either kind: first the side's bit is cleared, then the side is told. */
    method SideDone(s: Side, ghost b: Bind) returns (asserted: bool)
      requires Agrees(b) && Enabled(b, Clear(s))
      modifies votes, this`srcTold, this`dstTold, this`at, this`trace
      ensures Agrees(Apply(Apply(b, Clear(s)), Signal(s))) && trace == old(trace) + [Clear(s), Signal(s)]
      ensures votes.log == old(votes.log) + [b.word.With(s, false)]
      ensures asserted <==> Asserts(b, Clear(s))
    {
      asserted := ClearVote(s, b);
      Tell(s, Apply(b, Clear(s)));
    }

    /**
     vfi_dma_complete, undisturbed: the window is opened, each side's vote is cleared and the side told, and
     the window is closed again, in this order, and the vote word goes through these states.
     */
    method DmaComplete(ghost b: Bind) returns (again: bool)
      requires Agrees(b) && BindInv(b) && b.stage.Taken?
      modifies votes, this
      ensures Agrees(Callback(b)) && trace == old(trace) + CALLBACK && !again
      ensures votes.log == old(votes.log) +
        [Word(true, true, true), Word(true, false, true), Word(false, false, true), Word(false, false, false)]
    {
      WindowSteps(b);
      TakenIsAlone(b);
      hide BindInv, Apply, Callback, Agrees;
      Joined(trace, [Open], [Clear(Dst), Signal(Dst), Clear(Src), Signal(Src)], [Close]);
      Joined(votes.log, [Word(true, true, true)], [Word(true, false, true), Word(false, false, true)], [Word(false, false, false)]);
      again := OpenWindow(b);
      ghost var b1 := Apply(b, Open);
      BothDone(b1);
      ghost var b2 := Apply(Apply(b1, Clear(Dst)), Signal(Dst));
      again := CloseWindow(Apply(Apply(b2, Clear(Src)), Signal(Src)));
    }

    /** Any action of the site. */
    method Act(a: Action, ghost b: Bind) returns (asserted: bool)
      requires Agrees(b) && AtAgent(b, a) && Enabled(b, a) && (a.Open? ==> !b.word.pend)
      modifies votes, this
      ensures Agrees(Apply(b, a)) && (asserted <==> Asserts(b, a)) && trace == old(trace) + [a]
    {
      hide Agrees, Apply, Enabled;
      asserted := false;
      match a {
        case Vote(s) => asserted := Cast(s, b, a);
        case Queue => QueueBind(b);
        case Take => TakeDone(b);
        case Open => var ready := OpenWindow(b);
        case Clear(s) => asserted := ClearVote(s, b);
        case Signal(s) => Tell(s, b);
        case Close => var ready := CloseWindow(b);
        case Requeue => QueueAgain(b);
      }
    }

    /** dst_done and then src_done. */
    method BothDone(ghost b: Bind)
      requires Agrees(b) && Enabled(b, Clear(Dst))
      modifies votes, this`srcTold, this`dstTold, this`at, this`trace
      ensures var b' := Apply(Apply(b, Clear(Dst)), Signal(Dst)); Agrees(Apply(Apply(b', Clear(Src)), Signal(Src)))
      ensures trace == old(trace) + [Clear(Dst), Signal(Dst), Clear(Src), Signal(Src)]
      ensures votes.log == old(votes.log) + [b.word.With(Dst, false), b.word.With(Dst, false).With(Src, false)]
    {
      hide Agrees;
      var dstAsserted := SideDone(Dst, b);
      ghost var b' := Apply(Apply(b, Clear(Dst)), Signal(Dst));
      var srcAsserted := SideDone(Src, b');
    }
  }

  /** How often a side has been told of a completion, as far as the transfer site can see. */
  function Told(e: Endpoint): nat { if e.remote then e.doneFly else e.completes }

  /**
   A remote endpoint's site: its own copy of the vote word, the ready doorbells that it owes and has sent,
   the completions that it owes to the endpoint's event list, and how often it completed the list.
   */
  class EndpointSite {
    const votes: BindVotes
    var half: nat
    var bells: nat
    var owed: nat
    var told: nat
    ghost var trace: seq<Action>

    constructor ()
      ensures fresh(votes) && trace == [] && forall s: Side, list, slot :: Agrees(Fresh(true, list, slot), s)
    {
      votes := new BindVotes();
      half, bells, owed, told, trace := 0, 0, 0, 0, [];
    }

    ghost predicate Agrees(e: Endpoint, s: Side)
      reads this, votes
    {
      && Proper(votes.ready) && votes.State().Bit(s) == e.far
      && half == e.halfReady && bells == e.readyFly && owed == e.signal && told == e.completes
    }

    lemma AgreesStill(e: Endpoint, e': Endpoint, s: Side)
      requires Agrees(e, s) && e.remote && SameThere(e, e')
      ensures Agrees(e', s)
    {
    }

    /** The site's own vfi_bind_src_ready or vfi_bind_dst_ready. */
    method SetOwn(s: Side, ghost e: Endpoint) returns (asserted: bool)
      requires Agrees(e, s) && e.remote
      modifies votes, this`half, this`trace
      ensures Agrees(e.Started(), s) && trace == old(trace) + [Vote(s)] && (asserted <==> e.far)
      ensures votes.State() == old(votes.State()).With(s, true)
    {
      var ready;
      ready, asserted := votes.SideReady(s);
      half, trace := half + 1, trace + [Vote(s)];
    }

    /** The ready doorbell leaves. */
    method Ring(s: Side, ghost e: Endpoint)
      requires Agrees(e, s) && e.halfReady > 0
      modifies this`half, this`bells, this`trace
      ensures Agrees(e.ReadySent(), s) && trace == old(trace) + [SendReady(s)]
    {
      half, bells, trace := half - 1, bells + 1, trace + [SendReady(s)];
    }

    /** And reaches the transfer site. */
    method BellArrives(s: Side, ghost e: Endpoint)
      requires Agrees(e, s) && e.readyFly > 0
      modifies this`bells
      ensures Agrees(e.ReadyArrived(), s)
    {
      bells := bells - 1;
    }

    /** The done doorbell: vfi_bind_src_done or vfi_bind_dst_done at this site. */
    method ClearOwn(s: Side, ghost e: Endpoint) returns (asserted: bool)
      requires Agrees(e, s) && e.doneFly > 0
      modifies votes, this`owed, this`trace
      ensures Agrees(e.DoneArrived(), s) && trace == old(trace) + [RecvDone(s)] && (asserted <==> !e.far)
      ensures votes.State() == old(votes.State()).With(s, false)
    {
      asserted := votes.SideDone(s);
      owed, trace := owed + 1, trace + [RecvDone(s)];
    }

    /** And then vfi_local_done. */
    method CompleteList(s: Side, ghost e: Endpoint)
      requires Agrees(e, s) && e.signal > 0
      modifies this`owed, this`told, this`trace
      ensures Agrees(e.Completed(), s) && trace == old(trace) + [Complete(s)]
    {
      owed, told, trace := owed - 1, told + 1, trace + [Complete(s)];
    }

    /** vfi_fabric_src_ready and vfi_fabric_dst_ready: set the site's own bit, then ring the transfer site. */
    method RemoteReady(s: Side, ghost e: Endpoint) returns (asserted: bool)
      requires Agrees(e, s) && e.remote
      modifies votes, this`half, this`bells, this`trace
      ensures Agrees(e.Started().ReadySent(), s) && trace == old(trace) + [Vote(s), SendReady(s)]
      ensures votes.State() == old(votes.State()).With(s, true) && (asserted <==> e.far)
    {
      asserted := SetOwn(s, e);
      Ring(s, e.Started());
    }

    /** vfi_local_src_done or vfi_local_dst_done at this site: clear the bit, then complete the list. */
    method RemoteDone(s: Side, ghost e: Endpoint) returns (asserted: bool)
      requires Agrees(e, s) && e.remote && e.doneFly > 0
      modifies votes, this`owed, this`told, this`trace
      ensures Agrees(e.DoneArrived().Completed(), s) && trace == old(trace) + [RecvDone(s), Complete(s)]
      ensures votes.State() == old(votes.State()).With(s, false) && (asserted <==> !e.far)
    {
      asserted := ClearOwn(s, e);
      CompleteList(s, e.DoneArrived());
    }
  }

  // ---- Any interleaving -------------------------------------------------------------------------------------------

  predicate AtAgent(b: Bind, a: Action) {
    a.Queue? || a.Take? || a.Open? || a.Clear? || a.Signal? || a.Close? || a.Requeue? || (a.Vote? && !b.End(a.s).remote)
  }

  predicate AtSite(b: Bind, a: Action) { a.SendReady? || a.Complete? || (a.Vote? && b.End(a.s).remote) }

  /** A remote endpoint's site does not notice the difference. */
  predicate SameThere(e: Endpoint, e': Endpoint) {
    && e'.remote == e.remote
    && (e.remote ==> e'.far == e.far && e'.halfReady == e.halfReady && e'.readyFly == e.readyFly && e'.signal == e.signal && e'.completes == e.completes)
  }

  /** The transfer site does not notice the difference. */
  predicate SameHere(b: Bind, b': Bind) {
    && b'.word == b.word && b'.claims == b.claims && b'.inDma == b.inDma && b'.stage == b.stage
    && b'.src.remote == b.src.remote && Told(b'.src) == Told(b.src)
    && b'.dst.remote == b.dst.remote && Told(b'.dst) == Told(b.dst)
  }

  /** Only remote endpoints have doorbells and a site of their own; the window is closed when the callback begins. */
  lemma RemoteOnly(b: Bind, a: Action)
    requires BindInv(b) && Enabled(b, a)
    ensures a.RecvReady? || a.RecvDone? || a.SendReady? || a.Complete? ==> b.End(a.s).remote
    ensures a.Open? ==> !b.word.pend
  {
    if !a.Queue? && !a.Take? && !a.Open? && !a.Close? && !a.Requeue? {
      assert EndInv(b, a.s);
    }
  }

  lemma OthersUnaware(b: Bind, a: Action)
    requires Enabled(b, a)
    ensures AtAgent(b, a) ==> SameThere(b.src, Apply(b, a).src) && SameThere(b.dst, Apply(b, a).dst)
    ensures !AtAgent(b, a) ==> Apply(b, a).End(a.s).remote == b.End(a.s).remote
  {
  }

  lemma TransferSiteUnaware(b: Bind, a: Action)
    requires Enabled(b, a) && AtSite(b, a) && b.End(a.s).remote
    ensures SameHere(b, Apply(b, a))
  {
  }

  lemma OtherEndUnaware(b: Bind, a: Action)
    requires Enabled(b, a) && !AtAgent(b, a)
    ensures Apply(b, a).End(a.s.Other()) == b.End(a.s.Other())
  {
  }

  /** The transfer site and the sites of the endpoints, of which those of remote endpoints matter. */
  class Sites {
    const agent: Agent
    const src: EndpointSite
    const dst: EndpointSite

    constructor (srcRemote: bool, dstRemote: bool)
      ensures Valid() && fresh(agent) && fresh(agent.votes) && fresh(src) && fresh(src.votes) && fresh(dst) && fresh(dst.votes)
      ensures forall b :: Initial(b) && b.src.remote == srcRemote && b.dst.remote == dstRemote ==> Agrees(b)
    {
      agent := new Agent(srcRemote, dstRemote);
      src := new EndpointSite();
      dst := new EndpointSite();
    }

    /** Nothing is shared between the sites. */
    ghost predicate Valid() {
      && src != dst && src.votes != dst.votes && agent.votes != src.votes && agent.votes != dst.votes
    }

    function At(s: Side): EndpointSite { if s.Src? then src else dst }

    ghost predicate Agrees(b: Bind)
      reads agent, agent.votes, src, src.votes, dst, dst.votes
    {
      agent.Agrees(b) && (b.src.remote ==> src.Agrees(b.src, Src)) && (b.dst.remote ==> dst.Agrees(b.dst, Dst))
    }

    /** An action of the transfer site alone. */
    method AgentStep(a: Action, ghost b: Bind) returns (asserted: bool)
      requires Valid() && Agrees(b) && AtAgent(b, a) && Enabled(b, a) && (a.Open? ==> !b.word.pend)
      modifies agent, agent.votes
      ensures Agrees(Apply(b, a)) && (asserted <==> Asserts(b, a))
    {
      OthersUnaware(b, a);
      hide Apply, Asserts, Enabled, SameThere, Agent.Agrees, EndpointSite.Agrees;
      asserted := agent.Act(a, b);
      SitesStill(b, Apply(b, a));
    }

    lemma SitesStill(b: Bind, b': Bind)
      requires b.src.remote ==> src.Agrees(b.src, Src)
      requires b.dst.remote ==> dst.Agrees(b.dst, Dst)
      requires SameThere(b.src, b'.src) && SameThere(b.dst, b'.dst)
      ensures b'.src.remote ==> src.Agrees(b'.src, Src)
      ensures b'.dst.remote ==> dst.Agrees(b'.dst, Dst)
    {
    }

    /** An action of a remote endpoint's site alone. */
    method SiteStep(a: Action, ghost b: Bind) returns (asserted: bool)
      requires Valid() && Agrees(b) && AtSite(b, a) && Enabled(b, a) && b.End(a.s).remote
      modifies At(a.s), At(a.s).votes
      ensures Agrees(Apply(b, a)) && (asserted <==> Asserts(b, a))
    {
      TransferSiteUnaware(b, a);
      OtherEndUnaware(b, a);
      agent.AgreesStill(b, Apply(b, a));
      asserted := AtSiteStep(At(a.s), a, b);
      hide Agent.Agrees, EndpointSite.Agrees, Apply, Asserts, Enabled;
    }

    /** The remote site's part. */
    static method AtSiteStep(site: EndpointSite, a: Action, ghost b: Bind) returns (asserted: bool)
      requires AtSite(b, a) && Enabled(b, a) && site.Agrees(b.End(a.s), a.s)
      modifies site, site.votes
      ensures site.Agrees(Apply(b, a).End(a.s), a.s) && (asserted <==> Asserts(b, a))
    {
      hide EndpointSite.Agrees;
      asserted := false;
      match a {
        case Vote(s) => asserted := site.SetOwn(s, b.End(s));
        case SendReady(s) => site.Ring(s, b.End(s));
        case Complete(s) => site.CompleteList(s, b.End(s));
      }
    }

    /** A doorbell arrives: it is no longer on its way, and the site that it rings acts on it. */
    method DoorbellStep(a: Action, ghost b: Bind) returns (asserted: bool)
      requires Valid() && Agrees(b) && (a.RecvReady? || a.RecvDone?) && Enabled(b, a) && b.End(a.s).remote
      modifies agent, agent.votes, At(a.s), At(a.s).votes
      ensures Agrees(Apply(b, a)) && (asserted <==> Asserts(b, a))
    {
      OtherEndUnaware(b, a);
      OthersUnaware(b, a);
      asserted := Rung(At(a.s), a, b);
      hide Agent.Agrees, EndpointSite.Agrees, Apply, Asserts, Enabled;
    }

    method Rung(site: EndpointSite, a: Action, ghost b: Bind) returns (asserted: bool)
      requires (a.RecvReady? || a.RecvDone?) && Enabled(b, a) && b.End(a.s).remote
      requires site.votes != agent.votes && agent.Agrees(b) && site.Agrees(b.End(a.s), a.s)
      modifies agent, agent.votes, site, site.votes
      ensures agent.Agrees(Apply(b, a)) && site.Agrees(Apply(b, a).End(a.s), a.s) && (asserted <==> Asserts(b, a))
    {
      hide Agent.Agrees, EndpointSite.Agrees;
      if a.RecvReady? {
        site.BellArrives(a.s, b.End(a.s));
        asserted := agent.Cast(a.s, b, a);
      } else {
        agent.Delivered(a.s, b);
        asserted := site.ClearOwn(a.s, b.End(a.s));
      }
    }

    /** Whoever's turn it is makes one access of the code. */
    method Perform(a: Action, ghost b: Bind) returns (asserted: bool)
      requires Valid() && Agrees(b) && BindInv(b) && Enabled(b, a)
      modifies agent, agent.votes, src, src.votes, dst, dst.votes
      ensures Agrees(Apply(b, a)) && (asserted <==> Asserts(b, a))
    {
      RemoteOnly(b, a);
      hide BindInv, Apply, Enabled, Asserts, Agent.Agrees, EndpointSite.Agrees;
      agent.RemoteIs(b);
      if a.RecvReady? || a.RecvDone? {
        asserted := DoorbellStep(a, b);
      } else if a.SendReady? || a.Complete? || (a.Vote? && agent.Remote(a.s)) {
        asserted := SiteStep(a, b);
      } else {
        asserted := AgentStep(a, b);
      }
    }

    /**
     Any run of the protocol, the callback's calls interleaved with votes, doorbells and queueing, is what the
     code does, and none of its vote assertions fires.
     */
    method Replay(acts: seq<Action>, ghost b: Bind) returns (asserted: bool)
      requires Valid() && Agrees(b) && BindInv(b) && IsRun(b, acts)
      modifies agent, agent.votes, src, src.votes, dst, dst.votes
      ensures Agrees(Run(b, acts)) && !asserted
    {
      hide Agrees, BindInv, Enabled, Apply, Asserts;
      asserted := false;
      ghost var now := b;
      var i := 0;
      while i < |acts|
        invariant 0 <= i <= |acts| && !asserted
        invariant BindInv(now) && IsRun(now, acts[i..]) && Run(now, acts[i..]) == Run(b, acts)
        invariant Agrees(now)
      {
        StepKeepsInv(now, acts[i]);
        var fired := Perform(acts[i], now);
        asserted := asserted || fired;
        assert acts[i..][1..] == acts[i + 1..];
        now := Apply(now, acts[i]);
        i := i + 1;
      }
    }
  }
}
