/**
 The whole transfer system: binds stepped by the vote protocol, event lists whose start votes for all
 their endpoints and waits for them, and one DMA engine with its queues, interrupts and completion thread.
 */
module Transfers {
  import opened Results
  import opened Votes
  import opened BindProtocol
  import opened Scheduler

  /** An event of an event list: one that starts an endpoint of a bind, or one that only reports its done. */
  datatype Member = Passive | Start(b: nat, s: Side)

  /** Where vfi_events_start stands: not running, at member `i` of its loop, or waiting for completions. */
  datatype Phase = Unlocked | Voting(i: nat, wait: nat) | Syncing(wait: nat)

  /** `sync` is the count of the dma_sync completion, `rounds` how many times the start has returned. */
  datatype EventList = EventList(members: seq<Member>, phase: Phase, sync: nat, rounds: nat)

  datatype System = System(binds: seq<Bind>, lists: seq<EventList>, dma: Dma)

  datatype Label =
    | Begin(l: nat)             // vfi_events_start takes the start lock, or is refused
    | Visit(l: nat)             // visits the next member and starts it
    | Drain(l: nat)             // leaves the loop
    | Wait(l: nat)              // one wait_for_completion returns
    | Unlock(l: nat)            // releases the lock and returns
    | Send(b: nat, s: Side)     // a ready doorbell leaves
    | Arrive(b: nat, s: Side)   // and arrives
    | Return(b: nat, s: Side)   // a done doorbell arrives and clears the endpoint's own bit
    | Tell(b: nat, s: Side)     // and completes its event list
    | Enter(b: nat, c: nat)     // a voter queues the ready bind on channel c
    | Finish(c: nat)            // channel c interrupts, without error
    | Pick                      // the completion thread takes a completion
    | Call(c: nat)              // its callback makes its next step; c is where a requeue goes
    | PutEvent                  // the event goes back to the free ring

  /** What vfi_dma_complete does next for a bind. */
  function CallbackAction(b: Bind): Action {
    match b.stage
    case Taken => Open
    case Opened => Clear(Dst)
    case DstCleared => Signal(Dst)
    case DstSignalled => Clear(Src)
    case SrcCleared => Signal(Src)
    case SrcSignalled => Close
    case _ => Requeue
  }

  /** The endpoint whose event list a step completes, if any. */
  function Completes(b: Bind, a: Action): Option<Side> {
    match a
    case Signal(s) => if b.End(s).remote then None else Some(s)
    case Complete(s) => Some(s)
    case _ => None
  }

  /** Whether the driver can make the step. */
  predicate CanStep(sys: System, k: Label) {
    match k
    case Begin(l) => l < |sys.lists|
    case Visit(l) => l < |sys.lists| && sys.lists[l].phase.Voting? && sys.lists[l].phase.i < |sys.lists[l].members|
    case Drain(l) => l < |sys.lists| && sys.lists[l].phase.Voting? && sys.lists[l].phase.i >= |sys.lists[l].members|
    case Wait(l) => l < |sys.lists| && sys.lists[l].phase.Syncing? && sys.lists[l].phase.wait > 0 && sys.lists[l].sync > 0
    case Unlock(l) => l < |sys.lists| && sys.lists[l].phase == Syncing(0)
    case Send(b, s) => b < |sys.binds| && sys.binds[b].End(s).halfReady > 0
    case Arrive(b, s) => b < |sys.binds| && sys.binds[b].End(s).readyFly > 0
    case Return(b, s) => b < |sys.binds| && sys.binds[b].End(s).doneFly > 0
    case Tell(b, s) => b < |sys.binds| && sys.binds[b].End(s).signal > 0
    case Enter(b, c) => b < |sys.binds| && sys.binds[b].claims > 0 && c < |sys.dma.chans|
    case Finish(c) => c < |sys.dma.chans|
    case Pick => sys.dma.thread.Waiting? && sys.dma.out != []
    case Call(c) => sys.dma.thread.Handling? && c < |sys.dma.chans|
    case PutEvent => sys.dma.thread.Returning?
  }

  /** The bind and the protocol action of a step, if it has one. */
  function BindAction(sys: System, k: Label): Option<(nat, Action)>
    requires CanStep(sys, k)
  {
    match k
    case Visit(l) =>
      var m := sys.lists[l].members[sys.lists[l].phase.i];
      if m.Start? then Some((m.b, Vote(m.s))) else None
    case Send(b, s) => Some((b, SendReady(s)))
    case Arrive(b, s) => Some((b, RecvReady(s)))
    case Return(b, s) => Some((b, RecvDone(s)))
    case Tell(b, s) => Some((b, Complete(s)))
    case Enter(b, _) => Some((b, Queue))
    case Pick => Some((sys.dma.out[0].x, Take))
    case Call(_) =>
      var x := sys.dma.thread.e.x;
      if x < |sys.binds| then Some((x, CallbackAction(sys.binds[x]))) else None
    case _ => None
  }

  /** The event list that a protocol action completes, if any, exists. */
  predicate CanTell(sys: System, b: nat, a: Action) {
    b < |sys.binds| &&
    var told := Completes(sys.binds[b], a);
    told.Some? ==> sys.binds[b].End(told.value).list < |sys.lists|
  }

  /**
   What the driver takes for granted in a step: the objects it follows pointers to are there, and the
   protocol action of the bind is one that the protocol allows at that point, so that a vote is cast
   only by an endpoint that is not outstanding and a transfer is completed only once.
   */
  predicate Sound(sys: System, k: Label)
    requires CanStep(sys, k)
  {
    var ba := BindAction(sys, k);
    && (ba.Some? ==>
          var (b, a) := ba.value;
          b < |sys.binds| && b < |sys.dma.lens| && Enabled(sys.binds[b], a) && CanTell(sys, b, a))
    && (k.Pick? ==> sys.dma.out[0].chan < |sys.dma.chans|)
    && (k.Call? ==> ba.Some?)
  }

  /** One bind takes a step of its protocol. */
  function BindStep(sys: System, b: nat, a: Action): System
    requires b < |sys.binds| && Enabled(sys.binds[b], a)
  {
    sys.(binds := sys.binds[b := Apply(sys.binds[b], a)])
  }

  /** The step, with `complete` on the event list of the endpoint that it tells. */
  function ToldStep(sys: System, b: nat, a: Action): System
    requires b < |sys.binds| && Enabled(sys.binds[b], a) && CanTell(sys, b, a)
  {
    var told := Completes(sys.binds[b], a);
    var stepped := BindStep(sys, b, a);
    if told.None? then stepped
    else
      var l := sys.binds[b].End(told.value).list;
      WithList(stepped, l, sys.lists[l].(sync := sys.lists[l].sync + 1))
  }

  function WithList(sys: System, l: nat, ls: EventList): System
    requires l < |sys.lists|
  {
    sys.(lists := sys.lists[l := ls])
  }

  function VisitStep(sys: System, l: nat): System
    requires CanStep(sys, Visit(l)) && Sound(sys, Visit(l))
  {
    var ls := sys.lists[l];
    var m := ls.members[ls.phase.i];
    var next := WithList(sys, l, ls.(phase := Voting(ls.phase.i + 1, ls.phase.wait + if m.Start? then 1 else 0)));
    if m.Start? then BindStep(next, m.b, Vote(m.s)) else next
  }

  /** One step of the callback; after its last one the thread goes on to put the event back. */
  function CallStep(sys: System, c: nat): System
    requires CanStep(sys, Call(c)) && Sound(sys, Call(c))
  {
    var x := sys.dma.thread.e.x;
    var a := CallbackAction(sys.binds[x]);
    var stepped := ToldStep(sys, x, a);
    var queued := if a.Requeue? then stepped.(dma := Enqueue(sys.dma, x, c)) else stepped;
    if stepped.binds[x].stage.Rest? then queued.(dma := CallbackDone(queued.dma)) else queued
  }

  function SoundStep(sys: System, k: Label): System
    requires CanStep(sys, k) && Sound(sys, k)
  {
    match k
    case Begin(l) =>
      if sys.lists[l].phase.Unlocked? then WithList(sys, l, sys.lists[l].(phase := Voting(0, 0))) else sys
    case Visit(l) => VisitStep(sys, l)
    case Drain(l) => WithList(sys, l, sys.lists[l].(phase := Syncing(sys.lists[l].phase.wait)))
    case Wait(l) =>
      var ls := sys.lists[l];
      WithList(sys, l, ls.(phase := Syncing(ls.phase.wait - 1), sync := ls.sync - 1))
    case Unlock(l) => WithList(sys, l, sys.lists[l].(phase := Unlocked, rounds := sys.lists[l].rounds + 1))
    case Send(b, s) => BindStep(sys, b, SendReady(s))
    case Arrive(b, s) => BindStep(sys, b, RecvReady(s))
    case Return(b, s) => BindStep(sys, b, RecvDone(s))
    case Tell(b, s) => ToldStep(sys, b, Complete(s))
    case Enter(b, c) => BindStep(sys, b, Queue).(dma := Enqueue(sys.dma, b, c))
    case Finish(c) => sys.(dma := Interrupt(sys.dma, c, false))
    case Pick => BindStep(sys, sys.dma.out[0].x, Take).(dma := Fetch(sys.dma))
    case Call(c) => CallStep(sys, c)
    case PutEvent => sys.(dma := PutBack(sys.dma))
  }

  /** A system that takes an unsound step is stuck. */
  function Step(sys: System, k: Label): System
    requires CanStep(sys, k)
  {
    if Sound(sys, k) then SoundStep(sys, k) else sys
  }

  // ---- The invariant --------------------------------------------------------------------------------------

  predicate BindsInv(sys: System) { forall b :: 0 <= b < |sys.binds| ==> BindInv(sys.binds[b]) }

  /** The engine holds a bind as often as the bind counts itself in there. */
  ghost predicate FlightInv(sys: System) {
    && |sys.binds| == |sys.dma.lens|
    && forall b :: 0 <= b < |sys.binds| ==> InFlight(sys.dma)[b] == sys.binds[b].inDma
  }

  predicate Handles(t: Thread, b: nat) { t.Handling? && t.e.x == b }

  /** The thread handles a bind exactly while that bind's callback runs. */
  predicate ThreadInv(sys: System) {
    && (sys.dma.thread.Handling? ==> sys.dma.thread.e.x < |sys.binds|)
    && forall b :: 0 <= b < |sys.binds| ==> (sys.binds[b].stage.Rest? <==> !Handles(sys.dma.thread, b))
  }

  /** Member `m` of list `l` is the bind's endpoint whose events are in slot `i` of that list. */
  predicate AtHome(binds: seq<Bind>, m: Member, l: nat, i: nat) {
    m.Start? ==> m.b < |binds| && binds[m.b].End(m.s).list == l && binds[m.b].End(m.s).slot == i
  }

  /** Every endpoint belongs to one member of one event list. */
  predicate HomesInv(sys: System) {
    && (forall l, i :: 0 <= l < |sys.lists| && 0 <= i < |sys.lists[l].members| ==> AtHome(sys.binds, sys.lists[l].members[i], l, i))
    && forall b, s: Side :: 0 <= b < |sys.binds| ==> Listed(sys.lists, b, s, sys.binds[b].End(s))
  }

  predicate Listed(lists: seq<EventList>, b: nat, s: Side, e: Endpoint) {
    e.list < |lists| && e.slot < |lists[e.list].members| && lists[e.list].members[e.slot] == Start(b, s)
  }

  /** How many members of the list have been started in the round under way. */
  function Visited(ls: EventList): nat {
    match ls.phase
    case Unlocked => 0
    case Voting(i, _) => i
    case Syncing(_) => |ls.members|
  }

  /** The starts and completions of a member, in a round that has or has not reached it. */
  predicate MemberInv(binds: seq<Bind>, m: Member, rounds: nat, started: bool) {
    m.Start? ==>
      m.b < |binds| &&
      var e := binds[m.b].End(m.s);
      rounds <= e.completes <= e.starts == rounds + One(started)
  }

  function Starts(ms: seq<Member>): nat {
    if ms == [] then 0 else One(ms[|ms| - 1].Start?) + Starts(ms[..|ms| - 1])
  }

  predicate FinishedMember(binds: seq<Bind>, m: Member, rounds: nat) {
    m.Start? && m.b < |binds| && binds[m.b].End(m.s).completes > rounds
  }

  /** Members that have completed the round under way. */
  function Finished(binds: seq<Bind>, ms: seq<Member>, rounds: nat): nat {
    if ms == [] then 0
    else One(FinishedMember(binds, ms[|ms| - 1], rounds)) + Finished(binds, ms[..|ms| - 1], rounds)
  }

  /** The list has waited for as many completions as it has members, less those it still waits for. */
  predicate WaitInv(binds: seq<Bind>, ls: EventList) {
    var finished := Finished(binds, ls.members, ls.rounds);
    match ls.phase
    case Unlocked => finished == ls.sync
    case Voting(i, wait) => i <= |ls.members| && wait == Starts(ls.members[..i]) && finished == ls.sync
    case Syncing(wait) => finished + wait == Starts(ls.members) + ls.sync
  }

  predicate ListInv(binds: seq<Bind>, ls: EventList) {
    && (forall i :: 0 <= i < |ls.members| ==> MemberInv(binds, ls.members[i], ls.rounds, i < Visited(ls)))
    && WaitInv(binds, ls)
  }

  predicate ListsInv(sys: System) { forall l :: 0 <= l < |sys.lists| ==> ListInv(sys.binds, sys.lists[l]) }

  ghost predicate SysInv(sys: System, nevents: nat) {
    && BindsInv(sys) && FlightInv(sys) && ThreadInv(sys) && HomesInv(sys) && ListsInv(sys)
    && DmaInv(sys.dma, nevents)
  }

  // ---- What one protocol step changes ------------------------------------------------------------------------

  /** Only a vote starts an endpoint, and only the steps that tell its event list complete it. */
  lemma CountersAfter(b: Bind, a: Action, s: Side)
    requires Enabled(b, a)
    ensures var e, e' := b.End(s), Apply(b, a).End(s);
            && e'.list == e.list && e'.slot == e.slot
            && e'.starts == e.starts + One(a == Vote(s))
            && e'.completes == e.completes + One(Completes(b, a) == Some(s))
  {
  }

  lemma StageAfter(b: Bind, a: Action)
    requires Enabled(b, a)
    ensures var b' := Apply(b, a);
            && b'.inDma + One(a.Take?) == b.inDma + One(a.Queue? || a.Requeue?)
            && (!a.Take? && a != CallbackAction(b) ==> b'.stage == b.stage)
            && (a.Take? ==> !b'.stage.Rest?)
  {
  }

  lemma CallbackEnabled(b: Bind)
    requires !b.stage.Rest?
    ensures Enabled(b, CallbackAction(b))
  {
  }

  lemma InEngineMeansResting(b: Bind)
    requires BindInv(b) && b.inDma > 0
    ensures Enabled(b, Take)
  {
    hide EndInv;
  }

  // ---- The next step is sound -------------------------------------------------------------------------------

  /** The member that the loop comes to has not been started in this round, so its endpoint may vote. */
  lemma VisitIsSound(sys: System, l: nat)
    requires HomesInv(sys) && ListsInv(sys) && |sys.binds| == |sys.dma.lens| && CanStep(sys, Visit(l))
    ensures Sound(sys, Visit(l))
  {
    hide WaitInv, Apply, Listed;
    var ls := sys.lists[l];
    var m := ls.members[ls.phase.i];
    assert ListInv(sys.binds, ls) && AtHome(sys.binds, m, l, ls.phase.i);
    assert MemberInv(sys.binds, m, ls.rounds, false);
  }

  /** A completion names a bind whose callback is not running, on a channel that exists. */
  lemma PickIsSound(sys: System)
    requires BindsInv(sys) && FlightInv(sys) && Shape(sys.dma) && CanStep(sys, Pick)
    ensures Sound(sys, Pick)
  {
    hide BindInv, Queued;
    var e := sys.dma.out[0];
    assert Named(e, |sys.dma.lens|, |sys.dma.chans|);
    TransfersPop(sys.dma.out);
    assert e.x in Transfers(sys.dma.out);
    assert sys.binds[e.x].inDma > 0;
    InEngineMeansResting(sys.binds[e.x]);
  }

  lemma CallIsSound(sys: System, c: nat)
    requires ThreadInv(sys) && HomesInv(sys) && |sys.binds| == |sys.dma.lens| && CanStep(sys, Call(c))
    ensures Sound(sys, Call(c))
  {
    var x := sys.dma.thread.e.x;
    assert Handles(sys.dma.thread, x);
    CallbackEnabled(sys.binds[x]);
    hide AtHome, Enabled, CallbackAction;
    assert Listed(sys.lists, x, Src, sys.binds[x].End(Src)) && Listed(sys.lists, x, Dst, sys.binds[x].End(Dst));
  }

  lemma TellIsSound(sys: System, b: nat, s: Side)
    requires HomesInv(sys) && |sys.binds| == |sys.dma.lens| && CanStep(sys, Tell(b, s))
    ensures Sound(sys, Tell(b, s))
  {
    hide AtHome;
    assert Listed(sys.lists, b, s, sys.binds[b].End(s));
  }

  /** In every state that satisfies the invariant the driver's next step is sound, whichever it is. */
  lemma NextStepIsSound(sys: System, nevents: nat, k: Label)
    requires SysInv(sys, nevents) && CanStep(sys, k)
    ensures Sound(sys, k)
  {
    hide BindsInv, ThreadInv, ListsInv, DmaInv, HomesInv, CallbackAction;
    SizesAgree(sys);
    if k.Visit? { VisitIsSound(sys, k.l); }
    else if k.Pick? { ShapeOf(sys.dma, nevents); PickIsSound(sys); }
    else if k.Call? { CallIsSound(sys, k.c); }
    else if k.Tell? { TellIsSound(sys, k.b, k.s); }
    hide FlightInv;
  }

  lemma SizesAgree(sys: System)
    requires FlightInv(sys)
    ensures |sys.binds| == |sys.dma.lens|
  {
  }

  lemma ShapeOf(d: Dma, nevents: nat)
    requires DmaInv(d, nevents)
    ensures Shape(d)
  {
  }

  // ---- Every step keeps the invariant ---------------------------------------------------------------------------

  /** A bind's step, applied to all binds. */
  lemma BindsKept(sys: System, b: nat, a: Action)
    requires BindsInv(sys) && b < |sys.binds| && Enabled(sys.binds[b], a)
    ensures BindsInv(BindStep(sys, b, a)) && !Asserts(sys.binds[b], a)
  {
    StepKeepsInv(sys.binds[b], a);
    hide BindInv, Apply, Asserts, Enabled;
  }

  lemma HomesKept(sys: System, sys': System)
    requires HomesInv(sys) && |sys'.binds| == |sys.binds| && |sys'.lists| == |sys.lists|
    requires forall b, s: Side {:trigger sys'.binds[b].End(s)} :: 0 <= b < |sys.binds| ==>
      sys'.binds[b].End(s).list == sys.binds[b].End(s).list && sys'.binds[b].End(s).slot == sys.binds[b].End(s).slot
    requires forall l {:trigger sys'.lists[l]} :: 0 <= l < |sys.lists| ==> sys'.lists[l].members == sys.lists[l].members
    ensures HomesInv(sys')
  {
    forall l, i | 0 <= l < |sys'.lists| && 0 <= i < |sys'.lists[l].members|
      ensures AtHome(sys'.binds, sys'.lists[l].members[i], l, i)
    {
      assert AtHome(sys.binds, sys.lists[l].members[i], l, i);
    }
    forall b, s: Side | 0 <= b < |sys'.binds| ensures Listed(sys'.lists, b, s, sys'.binds[b].End(s)) {
      assert Listed(sys.lists, b, s, sys.binds[b].End(s));
    }
  }

  /** The counters that the event lists look at are the same for this member. */
  predicate SameCounters(binds: seq<Bind>, binds': seq<Bind>, m: Member) {
    m.Start? && m.b < |binds| ==>
      m.b < |binds'| &&
      binds'[m.b].End(m.s).starts == binds[m.b].End(m.s).starts && binds'[m.b].End(m.s).completes == binds[m.b].End(m.s).completes
  }

  lemma {:induction false} FinishedSame(binds: seq<Bind>, binds': seq<Bind>, ms: seq<Member>, rounds: nat)
    requires |binds'| == |binds|
    requires forall i :: 0 <= i < |ms| ==>
      FinishedMember(binds', ms[i], rounds) == FinishedMember(binds, ms[i], rounds)
    ensures Finished(binds', ms, rounds) == Finished(binds, ms, rounds)
  {
    hide FinishedMember;
    if ms != [] {
      FinishedSame(binds, binds', ms[..|ms| - 1], rounds);
    }
  }

  lemma {:induction false} FinishedOneMore(binds: seq<Bind>, binds': seq<Bind>, ms: seq<Member>, rounds: nat, k: nat)
    requires |binds'| == |binds| && k < |ms|
    requires forall i :: 0 <= i < |ms| && i != k ==>
      FinishedMember(binds', ms[i], rounds) == FinishedMember(binds, ms[i], rounds)
    requires FinishedMember(binds', ms[k], rounds) && !FinishedMember(binds, ms[k], rounds)
    ensures Finished(binds', ms, rounds) == Finished(binds, ms, rounds) + 1
  {
    hide FinishedMember;
    if k == |ms| - 1 {
      FinishedSame(binds, binds', ms[..|ms| - 1], rounds);
    } else {
      FinishedOneMore(binds, binds', ms[..|ms| - 1], rounds, k);
    }
  }

  /** A list none of whose members starts or completes. */
  lemma ListUntouched(binds: seq<Bind>, binds': seq<Bind>, ls: EventList)
    requires ListInv(binds, ls) && |binds'| == |binds|
    requires forall i :: 0 <= i < |ls.members| ==> SameCounters(binds, binds', ls.members[i])
    ensures ListInv(binds', ls)
  {
    forall i | 0 <= i < |ls.members|
      ensures MemberInv(binds', ls.members[i], ls.rounds, i < Visited(ls))
      ensures FinishedMember(binds', ls.members[i], ls.rounds) == FinishedMember(binds, ls.members[i], ls.rounds)
    {
      assert SameCounters(binds, binds', ls.members[i]) && MemberInv(binds, ls.members[i], ls.rounds, i < Visited(ls));
    }
    FinishedSame(binds, binds', ls.members, ls.rounds);
    hide MemberInv, Finished, Starts;
  }

  /** Members other than the endpoint that steps keep their counters. */
  lemma OthersKeepCounters(sys: System, b: nat, a: Action, s: Side, m: Member)
    requires b < |sys.binds| && Enabled(sys.binds[b], a)
    requires a.Vote? ==> a.s == s
    requires Completes(sys.binds[b], a).Some? ==> Completes(sys.binds[b], a).value == s
    requires m != Start(b, s)
    ensures SameCounters(sys.binds, BindStep(sys, b, a).binds, m)
  {
    if m.Start? && m.b == b {
      CountersAfter(sys.binds[b], a, m.s);
    }
    hide Apply;
  }

  /** A step that neither starts nor completes an endpoint. */
  lemma QuietStep(sys: System, b: nat, a: Action)
    requires ListsInv(sys) && HomesInv(sys) && b < |sys.binds| && Enabled(sys.binds[b], a)
    requires !a.Vote? && Completes(sys.binds[b], a).None?
    ensures ListsInv(BindStep(sys, b, a)) && HomesInv(BindStep(sys, b, a))
  {
    hide Apply, Enabled, ListInv, Completes, HomesInv;
    var sys' := BindStep(sys, b, a);
    CountersAfter(sys.binds[b], a, Src);
    CountersAfter(sys.binds[b], a, Dst);
    HomesKept(sys, sys');
    forall l | 0 <= l < |sys.lists| ensures ListInv(sys'.binds, sys'.lists[l]) {
      ListUntouched(sys.binds, sys'.binds, sys.lists[l]);
    }
  }

  /** One list replaced by another with the same members; the binds stay. */
  lemma ListReplaced(sys: System, l: nat, ls: EventList)
    requires ListsInv(sys) && HomesInv(sys) && l < |sys.lists| && ListInv(sys.binds, ls) && ls.members == sys.lists[l].members
    ensures ListsInv(WithList(sys, l, ls)) && HomesInv(WithList(sys, l, ls))
  {
    hide ListInv, HomesInv;
    HomesKept(sys, WithList(sys, l, ls));
  }

  lemma BeginKeepsList(binds: seq<Bind>, ls: EventList)
    requires ListInv(binds, ls) && ls.phase.Unlocked?
    ensures ListInv(binds, ls.(phase := Voting(0, 0)))
  {
    hide MemberInv, Finished;
    assert ls.members[..0] == [];
  }

  lemma DrainKeepsList(binds: seq<Bind>, ls: EventList)
    requires ListInv(binds, ls) && ls.phase.Voting? && ls.phase.i >= |ls.members|
    ensures ListInv(binds, ls.(phase := Syncing(ls.phase.wait)))
  {
    hide MemberInv, Finished;
    assert ls.members[..ls.phase.i] == ls.members;
  }

  lemma WaitKeepsList(binds: seq<Bind>, ls: EventList)
    requires ListInv(binds, ls) && ls.phase.Syncing? && ls.phase.wait > 0 && ls.sync > 0
    ensures ListInv(binds, ls.(phase := Syncing(ls.phase.wait - 1), sync := ls.sync - 1))
  {
    hide MemberInv, Finished;
  }

  /** No more members finish than were started; when as many do, each of them has. */
  lemma {:induction false} FinishedAtMost(binds: seq<Bind>, ms: seq<Member>, rounds: nat)
    ensures Finished(binds, ms, rounds) <= Starts(ms)
    ensures Finished(binds, ms, rounds) == Starts(ms) ==>
      forall i :: 0 <= i < |ms| ==> (ms[i].Start? ==> FinishedMember(binds, ms[i], rounds))
  {
    if ms != [] {
      FinishedAtMost(binds, ms[..|ms| - 1], rounds);
    }
  }

  lemma {:induction false} FinishedNone(binds: seq<Bind>, ms: seq<Member>, rounds: nat)
    requires forall i :: 0 <= i < |ms| ==> !FinishedMember(binds, ms[i], rounds)
    ensures Finished(binds, ms, rounds) == 0
  {
    hide FinishedMember;
    if ms != [] {
      FinishedNone(binds, ms[..|ms| - 1], rounds);
    }
  }

  /** Every endpoint that the start voted for has completed when it has waited often enough. */
  lemma DrainedListIsFinished(binds: seq<Bind>, ls: EventList)
    requires ListInv(binds, ls) && ls.phase == Syncing(0)
    ensures ls.sync == 0
    ensures forall i :: 0 <= i < |ls.members| ==>
      MemberInv(binds, ls.members[i], ls.rounds + 1, false) && !FinishedMember(binds, ls.members[i], ls.rounds + 1)
  {
    FinishedAtMost(binds, ls.members, ls.rounds);
    hide Finished, Starts;
    forall i | 0 <= i < |ls.members|
      ensures MemberInv(binds, ls.members[i], ls.rounds + 1, false) && !FinishedMember(binds, ls.members[i], ls.rounds + 1)
    {
      assert MemberInv(binds, ls.members[i], ls.rounds, true);
    }
  }

  lemma UnlockKeepsList(binds: seq<Bind>, ls: EventList)
    requires ListInv(binds, ls) && ls.phase == Syncing(0)
    ensures ListInv(binds, ls.(phase := Unlocked, rounds := ls.rounds + 1))
  {
    DrainedListIsFinished(binds, ls);
    FinishedNone(binds, ls.members, ls.rounds + 1);
    hide MemberInv, FinishedMember, Finished;
  }

  lemma VisitPassiveKeepsList(binds: seq<Bind>, ls: EventList)
    requires ListInv(binds, ls) && ls.phase.Voting? && ls.phase.i < |ls.members| && ls.members[ls.phase.i].Passive?
    ensures ListInv(binds, ls.(phase := Voting(ls.phase.i + 1, ls.phase.wait)))
  {
    var i := ls.phase.i;
    StartsNext(ls.members, i);
    hide Finished, Starts;
    forall k | 0 <= k < |ls.members| ensures MemberInv(binds, ls.members[k], ls.rounds, k < i + 1) {
      assert MemberInv(binds, ls.members[k], ls.rounds, k < i);
    }
    hide MemberInv;
  }

  lemma StartsNext(ms: seq<Member>, i: nat)
    requires i < |ms|
    ensures Starts(ms[..i + 1]) == Starts(ms[..i]) + One(ms[i].Start?)
  {
    assert ms[..i + 1][..i] == ms[..i];
  }

  /** The list whose loop starts the endpoint of member `i`. */
  lemma VisitedList(sys: System, l: nat)
    requires HomesInv(sys) && ListsInv(sys) && CanStep(sys, Visit(l)) && Sound(sys, Visit(l))
    requires sys.lists[l].members[sys.lists[l].phase.i].Start?
    ensures ListInv(VisitStep(sys, l).binds, VisitStep(sys, l).lists[l])
  {
    hide Apply, Listed;
    var ls := sys.lists[l];
    var i := ls.phase.i;
    var m := ls.members[i];
    var ls', binds' := VisitStep(sys, l).lists[l], VisitStep(sys, l).binds;
    assert AtHome(sys.binds, m, l, i) && ListInv(sys.binds, ls);
    CountersAfter(sys.binds[m.b], Vote(m.s), m.s);
    forall k | 0 <= k < |ls.members|
      ensures MemberInv(binds', ls.members[k], ls.rounds, k < i + 1)
      ensures FinishedMember(binds', ls.members[k], ls.rounds) == FinishedMember(sys.binds, ls.members[k], ls.rounds)
    {
      assert MemberInv(sys.binds, ls.members[k], ls.rounds, k < i);
      if k != i {
        assert AtHome(sys.binds, ls.members[k], l, k);
        OthersKeepCounters(sys, m.b, Vote(m.s), m.s, ls.members[k]);
      }
    }
    FinishedSame(sys.binds, binds', ls.members, ls.rounds);
    StartsNext(ls.members, i);
    hide MemberInv, Finished, Starts;
  }

  /** Lists other than the one that endpoint `s` of bind `b` belongs to. */
  lemma OtherListsKept(sys: System, b: nat, a: Action, s: Side, l: nat)
    requires HomesInv(sys) && ListsInv(sys) && b < |sys.binds| && Enabled(sys.binds[b], a)
    requires a.Vote? ==> a.s == s
    requires Completes(sys.binds[b], a).Some? ==> Completes(sys.binds[b], a).value == s
    requires l < |sys.lists| && l != sys.binds[b].End(s).list
    ensures ListInv(BindStep(sys, b, a).binds, sys.lists[l])
  {
    hide Apply, Enabled, Completes, Listed, MemberInv, WaitInv;
    var ls, binds' := sys.lists[l], BindStep(sys, b, a).binds;
    forall i | 0 <= i < |ls.members| ensures SameCounters(sys.binds, binds', ls.members[i]) {
      assert AtHome(sys.binds, ls.members[i], l, i);
      OthersKeepCounters(sys, b, a, s, ls.members[i]);
    }
    assert ListInv(sys.binds, ls);
    hide ListInv;
    ListUntouched(sys.binds, binds', ls);
  }

  lemma HomesAfter(sys: System, b: nat, a: Action, sys': System)
    requires HomesInv(sys) && b < |sys.binds| && Enabled(sys.binds[b], a)
    requires sys'.binds == BindStep(sys, b, a).binds && |sys'.lists| == |sys.lists|
    requires forall l {:trigger sys'.lists[l]} :: 0 <= l < |sys.lists| ==> sys'.lists[l].members == sys.lists[l].members
    ensures HomesInv(sys')
  {
    hide Apply, Enabled, HomesInv;
    CountersAfter(sys.binds[b], a, Src);
    CountersAfter(sys.binds[b], a, Dst);
    HomesKept(sys, sys');
  }

  lemma VisitKeepsLists(sys: System, l: nat)
    requires HomesInv(sys) && ListsInv(sys) && CanStep(sys, Visit(l)) && Sound(sys, Visit(l))
    ensures ListsInv(VisitStep(sys, l)) && HomesInv(VisitStep(sys, l))
  {
    hide Apply, Enabled, ListInv, AtHome, Listed;
    var ls := sys.lists[l];
    var m := ls.members[ls.phase.i];
    var sys' := VisitStep(sys, l);
    if m.Start? {
      assert AtHome(sys.binds, m, l, ls.phase.i);
      VisitedList(sys, l);
      HomesAfter(sys, m.b, Vote(m.s), sys');
      assert sys.binds[m.b].End(m.s).list == l by { ListOf(sys, m, l, ls.phase.i); }
      forall k | 0 <= k < |sys'.lists| ensures ListInv(sys'.binds, sys'.lists[k]) {
        if k != l {
          OtherListsKept(sys, m.b, Vote(m.s), m.s, k);
        }
      }
    } else {
      VisitPassiveKeepsList(sys.binds, ls);
      ListReplaced(sys, l, sys'.lists[l]);
    }
  }

  lemma ListOf(sys: System, m: Member, l: nat, i: nat)
    requires AtHome(sys.binds, m, l, i) && m.Start?
    ensures m.b < |sys.binds| && sys.binds[m.b].End(m.s).list == l
  {
  }

  /** The list of an endpoint that completes: one more of its members has finished, and one more is to be waited for. */
  lemma ToldList(sys: System, b: nat, a: Action)
    requires HomesInv(sys) && ListsInv(sys) && b < |sys.binds| && Enabled(sys.binds[b], a)
    requires CanTell(sys, b, a) && Completes(sys.binds[b], a).Some?
    requires BindInv(Apply(sys.binds[b], a))
    ensures var l := sys.binds[b].End(Completes(sys.binds[b], a).value).list;
            ListInv(ToldStep(sys, b, a).binds, ToldStep(sys, b, a).lists[l])
  {
    hide Apply, Enabled;
    var s := Completes(sys.binds[b], a).value;
    var e := sys.binds[b].End(s);
    var l, i, ls := e.list, e.slot, sys.lists[e.list];
    var sys' := ToldStep(sys, b, a);
    var binds' := sys'.binds;
    assert Listed(sys.lists, b, s, e) && ListInv(sys.binds, ls);
    CountersAfter(sys.binds[b], a, s);
    CompletesWithinStarts(Apply(sys.binds[b], a), s);
    hide BindInv, Completes;
    forall k | 0 <= k < |ls.members|
      ensures MemberInv(binds', ls.members[k], ls.rounds, k < Visited(ls))
      ensures k != i ==> FinishedMember(binds', ls.members[k], ls.rounds) == FinishedMember(sys.binds, ls.members[k], ls.rounds)
    {
      assert MemberInv(sys.binds, ls.members[k], ls.rounds, k < Visited(ls));
      if k != i {
        assert AtHome(sys.binds, ls.members[k], l, k);
        OthersKeepCounters(sys, b, a, s, ls.members[k]);
      }
    }
    assert MemberInv(sys.binds, ls.members[i], ls.rounds, i < Visited(ls));
    FinishedOneMore(sys.binds, binds', ls.members, ls.rounds, i);
    hide MemberInv, Finished, Starts, HomesInv, ListsInv;
  }

  lemma CompletesWithinStarts(b: Bind, s: Side)
    requires BindInv(b)
    ensures b.End(s).completes <= b.End(s).starts
  {
    assert EndInv(b, s);
  }

  lemma ToldKeepsLists(sys: System, b: nat, a: Action)
    requires HomesInv(sys) && ListsInv(sys) && b < |sys.binds| && Enabled(sys.binds[b], a)
    requires CanTell(sys, b, a) && !a.Vote? && BindInv(Apply(sys.binds[b], a))
    ensures ListsInv(ToldStep(sys, b, a)) && HomesInv(ToldStep(sys, b, a))
  {
    hide Apply, Enabled, ListInv, AtHome, Listed, BindInv, Completes;
    var sys' := ToldStep(sys, b, a);
    var told := Completes(sys.binds[b], a);
    if told.None? {
      QuietStep(sys, b, a);
    } else {
      var l := sys.binds[b].End(told.value).list;
      ToldList(sys, b, a);
      HomesAfter(sys, b, a, sys');
      forall k | 0 <= k < |sys'.lists| ensures ListInv(sys'.binds, sys'.lists[k]) {
        if k != l {
          OtherListsKept(sys, b, a, told.value, k);
        }
      }
    }
  }

  // The steps of the whole system.

  /** The engine gains or loses the bind that steps, as the bind counts it. */
  lemma FlightAfter(sys: System, b: nat, a: Action, sys': System)
    requires FlightInv(sys) && b < |sys.binds| && Enabled(sys.binds[b], a)
    requires sys'.binds == BindStep(sys, b, a).binds && sys'.dma.lens == sys.dma.lens
    requires InFlight(sys'.dma) + (if a.Take? then multiset{b} else multiset{})
          == InFlight(sys.dma) + (if a.Queue? || a.Requeue? then multiset{b} else multiset{})
    ensures FlightInv(sys')
  {
    StageAfter(sys.binds[b], a);
    hide InFlight, Apply, Enabled;
    var gone, came := if a.Take? then multiset{b} else multiset{}, if a.Queue? || a.Requeue? then multiset{b} else multiset{};
    forall x | 0 <= x < |sys'.binds| ensures InFlight(sys'.dma)[x] == sys'.binds[x].inDma {
      assert (InFlight(sys'.dma) + gone)[x] == (InFlight(sys.dma) + came)[x];
    }
  }

  /** The thread's part: the bind that steps rests exactly if the thread does not handle it. */
  lemma ThreadAfter(sys: System, b: nat, a: Action, sys': System)
    requires ThreadInv(sys) && b < |sys.binds| && Enabled(sys.binds[b], a)
    requires sys'.binds == BindStep(sys, b, a).binds
    requires Apply(sys.binds[b], a).stage.Rest? <==> !Handles(sys'.dma.thread, b)
    requires sys'.dma.thread.Handling? ==> sys'.dma.thread.e.x < |sys.binds|
    requires forall x :: x != b ==> Handles(sys'.dma.thread, x) == Handles(sys.dma.thread, x)
    ensures ThreadInv(sys')
  {
    hide Apply, Enabled;
  }

  lemma SameThread(sys: System, sys': System)
    requires sys'.binds == sys.binds && |sys.binds| == |sys'.dma.lens|
    requires forall x :: Handles(sys'.dma.thread, x) == Handles(sys.dma.thread, x)
    requires sys'.dma.thread.Handling? ==> sys'.dma.thread.e.x < |sys.binds|
    ensures ThreadInv(sys) ==> ThreadInv(sys')
  {
  }

  lemma SameFlight(sys: System, sys': System)
    requires FlightInv(sys) && sys'.binds == sys.binds && sys'.dma.lens == sys.dma.lens && InFlight(sys'.dma) == InFlight(sys.dma)
    ensures FlightInv(sys')
  {
    hide InFlight;
  }

  lemma ListStepKeepsInv(sys: System, nevents: nat, k: Label)
    requires SysInv(sys, nevents) && CanStep(sys, k) && (k.Begin? || k.Drain? || k.Wait? || k.Unlock?)
    ensures Sound(sys, k) && SysInv(SoundStep(sys, k), nevents)
  {
    hide BindsInv, HomesInv, ListInv, DmaInv, InFlight;
    var ls := sys.lists[k.l];
    assert ListInv(sys.binds, ls);
    if k.Begin? {
      if ls.phase.Unlocked? {
        BeginKeepsList(sys.binds, ls);
        ListReplaced(sys, k.l, ls.(phase := Voting(0, 0)));
      }
    } else if k.Drain? {
      DrainKeepsList(sys.binds, ls);
      ListReplaced(sys, k.l, ls.(phase := Syncing(ls.phase.wait)));
    } else if k.Wait? {
      WaitKeepsList(sys.binds, ls);
      ListReplaced(sys, k.l, ls.(phase := Syncing(ls.phase.wait - 1), sync := ls.sync - 1));
    } else {
      UnlockKeepsList(sys.binds, ls);
      ListReplaced(sys, k.l, ls.(phase := Unlocked, rounds := ls.rounds + 1));
    }
    hide ListsInv;
    assert BindsInv(SoundStep(sys, k)) by { SameBinds(sys, SoundStep(sys, k)); }
  }

  lemma SameBinds(sys: System, sys': System)
    requires BindsInv(sys) && sys'.binds == sys.binds
    ensures BindsInv(sys')
  {
    hide BindInv;
  }

  lemma SameLists(sys: System, sys': System)
    requires sys'.binds == sys.binds && sys'.lists == sys.lists
    ensures HomesInv(sys) ==> HomesInv(sys')
    ensures ListsInv(sys) ==> ListsInv(sys')
  {
    hide ListInv, AtHome, Listed;
  }

  lemma VisitKeepsInv(sys: System, nevents: nat, l: nat)
    requires SysInv(sys, nevents) && CanStep(sys, Visit(l))
    ensures Sound(sys, Visit(l)) && SysInv(VisitStep(sys, l), nevents)
  {
    SizesAgree(sys);
    VisitIsSound(sys, l);
    VisitKeepsLists(sys, l);
    var m := sys.lists[l].members[sys.lists[l].phase.i];
    var sys' := VisitStep(sys, l);
    hide HomesInv, ListsInv, DmaInv, InFlight, Apply;
    if m.Start? {
      BindsKept(sys, m.b, Vote(m.s));
      SameBinds(BindStep(sys, m.b, Vote(m.s)), sys');
      FlightAfter(sys, m.b, Vote(m.s), sys');
      StageAfter(sys.binds[m.b], Vote(m.s));
      hide BindsInv, FlightInv;
      ThreadAfter(sys, m.b, Vote(m.s), sys');
      hide ThreadInv;
    } else {
      hide BindInv;
    }
  }

  predicate IsMessage(k: Label) { k.Send? || k.Arrive? || k.Return? || k.Tell? }

  /** What every step of a bind's protocol keeps, once its own effect on the engine is accounted for. */
  lemma ProtocolStepKeeps(sys: System, b: nat, a: Action)
    requires BindsInv(sys) && HomesInv(sys) && ListsInv(sys) && !a.Vote?
    requires b < |sys.binds| && Enabled(sys.binds[b], a) && CanTell(sys, b, a)
    ensures var sys' := ToldStep(sys, b, a);
            && BindsInv(sys') && HomesInv(sys') && ListsInv(sys') && !Asserts(sys.binds[b], a)
            && sys'.binds == BindStep(sys, b, a).binds && sys'.dma == sys.dma
  {
    hide HomesInv, ListsInv, Apply, Enabled, Completes, BindInv, Asserts;
    StepKeepsInv(sys.binds[b], a);
    ToldKeepsLists(sys, b, a);
    BindsKept(sys, b, a);
    SameBinds(BindStep(sys, b, a), ToldStep(sys, b, a));
  }

  lemma MessageAction(sys: System, k: Label)
    requires IsMessage(k) && CanStep(sys, k) && Sound(sys, k)
    ensures var (b, a) := BindAction(sys, k).value;
            && (a.SendReady? || a.RecvReady? || a.RecvDone? || a.Complete?)
            && SoundStep(sys, k) == ToldStep(sys, b, a)
  {
  }

  lemma MessageKeepsInv(sys: System, nevents: nat, k: Label)
    requires SysInv(sys, nevents) && IsMessage(k) && CanStep(sys, k) && Sound(sys, k)
    ensures SysInv(SoundStep(sys, k), nevents)
  {
    MessageAction(sys, k);
    var (b, a) := BindAction(sys, k).value;
    hide SoundStep, BindsInv, HomesInv, ListsInv, DmaInv, InFlight, Apply, Enabled, Completes;
    ProtocolStepKeeps(sys, b, a);
    var sys' := ToldStep(sys, b, a);
    hide ToldStep;
    MessageMovesNothing(sys, b, a, sys');
    hide FlightInv, ThreadInv, Sound, CanStep;
  }

  /** A message neither queues nor takes a transfer, and leaves the callback where it stands. */
  lemma MessageMovesNothing(sys: System, b: nat, a: Action, sys': System)
    requires FlightInv(sys) && ThreadInv(sys) && b < |sys.binds| && Enabled(sys.binds[b], a)
    requires a.SendReady? || a.RecvReady? || a.RecvDone? || a.Complete?
    requires sys'.binds == BindStep(sys, b, a).binds && sys'.dma == sys.dma
    ensures FlightInv(sys') && ThreadInv(sys')
  {
    hide InFlight, Apply, Enabled;
    FlightAfter(sys, b, a, sys');
    hide FlightInv;
    StageAfter(sys.binds[b], a);
    CallbackIsEngineStep(sys.binds[b]);
    ThreadAfter(sys, b, a, sys');
  }

  lemma CallbackIsEngineStep(b: Bind)
    ensures var a := CallbackAction(b); a.Open? || a.Clear? || a.Signal? || a.Close? || a.Requeue?
  {
  }

  /** A bind that is to be queued is not in the engine. */
  lemma ToBeQueuedIsAbsent(b: Bind)
    requires BindInv(b) && (b.claims > 0 || b.stage.Requeueing?)
    ensures b.inDma == 0
  {
    hide EndInv;
  }

  lemma QueuedIsAbsent(sys: System, b: nat, a: Action)
    requires BindsInv(sys) && b < |sys.binds| && Enabled(sys.binds[b], a) && (a.Queue? || a.Requeue?)
    ensures sys.binds[b].inDma == 0
  {
    hide BindInv;
    ToBeQueuedIsAbsent(sys.binds[b]);
  }

  lemma EnterShape(sys: System, b: nat, c: nat)
    requires CanStep(sys, Enter(b, c)) && Sound(sys, Enter(b, c))
    ensures b < |sys.binds| && Enabled(sys.binds[b], Queue) && CanTell(sys, b, Queue)
    ensures b < |sys.dma.lens| && c < |sys.dma.chans|
    ensures var sys' := SoundStep(sys, Enter(b, c));
            && sys'.binds == BindStep(sys, b, Queue).binds && sys'.lists == ToldStep(sys, b, Queue).lists
            && sys'.dma == Enqueue(sys.dma, b, c)
  {
    hide Apply, Enqueue;
  }

  lemma EnterKeepsInv(sys: System, nevents: nat, b: nat, c: nat)
    requires SysInv(sys, nevents) && CanStep(sys, Enter(b, c)) && Sound(sys, Enter(b, c))
    ensures SysInv(SoundStep(sys, Enter(b, c)), nevents)
  {
    var sys' := SoundStep(sys, Enter(b, c));
    EnterShape(sys, b, c);
    hide BindInv, HomesInv, ListsInv, DmaInv, InFlight, Apply, Completes, Enqueue, SoundStep, Sound, CanStep, Enabled, CanTell, ToldStep;
    QueuedIsAbsent(sys, b, Queue);
    ProtocolStepKeeps(sys, b, Queue);
    Queueing(sys, nevents, b, c);
    assert BindsInv(sys') by { SameBinds(ToldStep(sys, b, Queue), sys'); }
    SameLists(ToldStep(sys, b, Queue), sys');
    FlightAfter(sys, b, Queue, sys');
    hide FlightInv, BindsInv;
    StageAfter(sys.binds[b], Queue);
    CallbackIsEngineStep(sys.binds[b]);
    ThreadAfter(sys, b, Queue, sys');
    hide ThreadInv;
  }

  /** Queueing a bind that is not in the engine. */
  lemma Queueing(sys: System, nevents: nat, b: nat, c: nat)
    requires FlightInv(sys) && DmaInv(sys.dma, nevents) && b < |sys.binds| && c < |sys.dma.chans| && sys.binds[b].inDma == 0
    ensures b < |sys.dma.lens|
    ensures var d := Enqueue(sys.dma, b, c);
            && DmaInv(d, nevents) && InFlight(d) == InFlight(sys.dma) + multiset{b}
            && d.lens == sys.dma.lens && d.thread == sys.dma.thread && d.out == sys.dma.out && |d.chans| == |sys.dma.chans|
  {
    EnqueueKeepsInv(sys.dma, nevents, b, c);
    EnqueueInFlight(sys.dma, b, c);
    hide DmaInv, InFlight;
  }

  lemma FinishKeepsInv(sys: System, nevents: nat, c: nat)
    requires SysInv(sys, nevents) && CanStep(sys, Finish(c))
    ensures Sound(sys, Finish(c)) && SysInv(SoundStep(sys, Finish(c)), nevents)
  {
    InterruptKeepsInv(sys.dma, nevents, c);
    var sys' := SoundStep(sys, Finish(c));
    Interrupted(sys.dma, c);
    hide BindsInv, HomesInv, ListsInv, DmaInv, InFlight, Interrupt;
    SameBinds(sys, sys');
    SameLists(sys, sys');
    SameFlight(sys, sys');
    SizesAgree(sys);
    SameThread(sys, sys');
    hide FlightInv, ThreadInv;
  }

  lemma Interrupted(d: Dma, c: nat)
    requires c < |d.chans|
    ensures var d' := Interrupt(d, c, false); InFlight(d') == InFlight(d) && d'.lens == d.lens && d'.thread == d.thread
  {
    InterruptInFlight(d, c, false);
    hide InFlight, AfterInterrupt;
  }

  lemma PickKeepsInv(sys: System, nevents: nat)
    requires SysInv(sys, nevents) && CanStep(sys, Pick) && Sound(sys, Pick)
    ensures SysInv(SoundStep(sys, Pick), nevents)
  {
    var b := sys.dma.out[0].x;
    var sys' := SoundStep(sys, Pick);
    FetchKeepsInv(sys.dma, nevents);
    hide BindInv, HomesInv, ListsInv, DmaInv, InFlight, Apply, Completes;
    ProtocolStepKeeps(sys, b, Take);
    assert BindsInv(sys') by { SameBinds(BindStep(sys, b, Take), sys'); }
    SameLists(BindStep(sys, b, Take), sys');
    FlightAfter(sys, b, Take, sys');
    hide FlightInv, BindsInv;
    StageAfter(sys.binds[b], Take);
    ThreadAfter(sys, b, Take, sys');
    hide ThreadInv;
  }

  lemma PutEventKeepsInv(sys: System, nevents: nat)
    requires SysInv(sys, nevents) && CanStep(sys, PutEvent)
    ensures Sound(sys, PutEvent) && SysInv(SoundStep(sys, PutEvent), nevents)
  {
    PutBackKeepsInv(sys.dma, nevents);
    var sys' := SoundStep(sys, PutEvent);
    hide BindsInv, HomesInv, ListsInv, DmaInv, InFlight;
    SameBinds(sys, sys');
    SameLists(sys, sys');
    SameFlight(sys, sys');
    SizesAgree(sys);
    SameThread(sys, sys');
    hide FlightInv, ThreadInv;
  }

  /** The engine after the callback's step, before the thread moves on. */
  function CalledDma(sys: System, b: nat, a: Action, c: nat): Dma
    requires c < |sys.dma.chans| && b < |sys.dma.lens|
  {
    if a.Requeue? then Enqueue(sys.dma, b, c) else sys.dma
  }

  lemma CallShape(sys: System, c: nat, b: nat, a: Action)
    requires CanStep(sys, Call(c)) && Sound(sys, Call(c))
    requires b == sys.dma.thread.e.x && a == CallbackAction(sys.binds[b])
    ensures b < |sys.binds| && b < |sys.dma.lens| && Enabled(sys.binds[b], a) && CanTell(sys, b, a)
    ensures sys.dma.thread.Handling? && c < |sys.dma.chans|
    ensures var d, sys' := CalledDma(sys, b, a, c), SoundStep(sys, Call(c));
            && d.thread == sys.dma.thread
            && sys'.binds == BindStep(sys, b, a).binds && sys'.lists == ToldStep(sys, b, a).lists
            && sys'.dma == if Apply(sys.binds[b], a).stage.Rest? then CallbackDone(d) else d
  {
    hide Apply, Completes, Enabled, CallbackAction;
  }

  /** What the callback's step does to the engine. */
  lemma CalledEngine(sys: System, nevents: nat, c: nat, b: nat, a: Action)
    requires FlightInv(sys) && BindsInv(sys) && DmaInv(sys.dma, nevents) && c < |sys.dma.chans| && b < |sys.binds|
    requires Enabled(sys.binds[b], a) && !a.Queue? && sys.dma.thread.Handling?
    ensures b < |sys.dma.lens|
    ensures var d := CalledDma(sys, b, a, c);
            && d.thread == sys.dma.thread && d.lens == sys.dma.lens
            && DmaInv(d, nevents) && DmaInv(CallbackDone(d), nevents)
            && InFlight(d) == InFlight(CallbackDone(d)) == InFlight(sys.dma) + (if a.Requeue? then multiset{b} else multiset{})
  {
    SizesAgree(sys);
    if a.Requeue? {
      QueuedIsAbsent(sys, b, a);
      Queueing(sys, nevents, b, c);
    }
    hide BindsInv, FlightInv, DmaInv, InFlight, Enqueue, Enabled;
    CallbackKeepsInv(CalledDma(sys, b, a, c), nevents);
  }

  /** One step of the callback, and the thread's return after its last one. */
  lemma CallKeepsInv(sys: System, nevents: nat, c: nat)
    requires SysInv(sys, nevents) && CanStep(sys, Call(c)) && Sound(sys, Call(c))
    ensures SysInv(SoundStep(sys, Call(c)), nevents)
  {
    var b := sys.dma.thread.e.x;
    var a, sys' := CallbackAction(sys.binds[b]), SoundStep(sys, Call(c));
    CallShape(sys, c, b, a);
    CallbackIsEngineStep(sys.binds[b]);
    hide HomesInv, ListsInv, DmaInv, InFlight, BindInv, CallbackAction, SoundStep, Sound, CanStep;
    hide Apply, Completes, Enabled, CalledDma, CanTell, ToldStep;
    CalledEngine(sys, nevents, c, b, a);
    ProtocolStepKeeps(sys, b, a);
    assert BindsInv(sys') by { SameBinds(ToldStep(sys, b, a), sys'); }
    SameLists(ToldStep(sys, b, a), sys');
    FlightAfter(sys, b, a, sys');
    hide FlightInv, BindsInv;
    ThreadAfter(sys, b, a, sys');
    hide ThreadInv;
  }

  /** Every step that the driver can make is sound and keeps the invariant. */
  lemma StepKeepsSysInv(sys: System, nevents: nat, k: Label)
    requires SysInv(sys, nevents) && CanStep(sys, k)
    ensures Sound(sys, k) && SysInv(Step(sys, k), nevents)
  {
    NextStepIsSound(sys, nevents, k);
    hide SysInv, Sound, CanStep;
    if k.Begin? || k.Drain? || k.Wait? || k.Unlock? { ListStepKeepsInv(sys, nevents, k); }
    else if k.Visit? { VisitKeepsInv(sys, nevents, k.l); }
    else if IsMessage(k) { MessageKeepsInv(sys, nevents, k); }
    else if k.Enter? { EnterKeepsInv(sys, nevents, k.b, k.c); }
    else if k.Finish? { FinishKeepsInv(sys, nevents, k.c); }
    else if k.Pick? { PickKeepsInv(sys, nevents); }
    else if k.Call? { CallKeepsInv(sys, nevents, k.c); }
    else { PutEventKeepsInv(sys, nevents); }
  }
}
