/**
 How many event objects the DMA driver needs: one more than there are binds, exactly. With fewer, a run
 loses a completion.
 */
module EventBound {
  import opened Votes
  import opened BindProtocol
  import opened Scheduler
  import opened Transfers
  import opened TransferTheorems

  // ---- Reaching states -------------------------------------------------------------------------------------

  ghost predicate Reaches(sys: System, sys': System) { exists ks :: IsSysRun(sys, ks) && SysRun(sys, ks) == sys' }

  lemma ReachesSelf(sys: System)
    ensures Reaches(sys, sys)
  {
    assert IsSysRun(sys, []);
  }

  lemma {:induction false} RunExtends(sys: System, ks: seq<Label>, k: Label)
    requires IsSysRun(sys, ks) && CanStep(SysRun(sys, ks), k)
    ensures IsSysRun(sys, ks + [k]) && SysRun(sys, ks + [k]) == Step(SysRun(sys, ks), k)
    decreases |ks|
  {
    hide CanStep, Step;
    if ks == [] {
      var r := Step(sys, k);
      assert ks + [k] == [k] && [k][1..] == [];
      assert IsSysRun(r, []);
    } else {
      assert (ks + [k])[1..] == ks[1..] + [k];
      RunExtends(Step(sys, ks[0]), ks[1..], k);
    }
  }

  lemma ReachesStep(sys: System, r: System, k: Label)
    requires Reaches(sys, r) && CanStep(r, k)
    ensures Reaches(sys, Step(r, k))
  {
    hide CanStep, Step;
    var ks :| IsSysRun(sys, ks) && SysRun(sys, ks) == r;
    RunExtends(sys, ks, k);
  }

  // ---- A bind with both endpoints local, started by its own event list ----------------------------------------

  function LocalEnd(list: nat, slot: nat, starts: nat, completes: nat): Endpoint {
    Endpoint(false, false, 0, 0, 0, 0, starts, completes, list, slot)
  }

  /** A bind that has made `n` transfers and is at rest. */
  function IdleBind(b: nat, n: nat): Bind {
    Bind(Word(false, false, false), LocalEnd(b, 0, n, n), LocalEnd(b, 1, n, n), 0, 0, Rest, n, n, n, n)
  }

  function Members(b: nat): seq<Member> { [Start(b, Src), Start(b, Dst)] }

  function IdleList(b: nat, n: nat): EventList { EventList(Members(b), Unlocked, 0, n) }

  /** Both endpoints have voted and the transfer is in the engine. */
  function QueuedBind(b: nat, n: nat): Bind {
    Bind(Word(true, true, false), LocalEnd(b, 0, n + 1, n), LocalEnd(b, 1, n + 1, n), 0, 1, Rest, n + 1, n + 1, n + 1, n)
  }

  function VotedList(b: nat, n: nat): EventList { EventList(Members(b), Voting(2, 2), 0, n) }

  function Small(binds: nat, nevents: nat): System {
    System(seq(binds, b requires 0 <= b < binds => IdleBind(b, 0)), seq(binds, b requires 0 <= b < binds => IdleList(b, 0)), Boot(seq(binds, _ => 1), 1, nevents))
  }

  /** As many binds as wanted, each with an event list of its own, and one channel. */
  lemma SmallIsInitial(binds: nat, nevents: nat)
    ensures InitialSystem(Small(binds, nevents), 1, nevents)
  {
    var sys := Small(binds, nevents);
    forall b | 0 <= b < |sys.binds| ensures BindProtocol.Initial(sys.binds[b]) {
      assert sys.binds[b] == IdleBind(b, 0);
    }
    forall l, i | 0 <= l < |sys.lists| && 0 <= i < |sys.lists[l].members| ensures AtHome(sys.binds, sys.lists[l].members[i], l, i) {
      assert sys.lists[l] == IdleList(l, 0) && sys.binds[l] == IdleBind(l, 0);
    }
    forall b, s: Side | 0 <= b < |sys.binds| ensures Listed(sys.lists, b, s, sys.binds[b].End(s)) {
      assert sys.lists[b] == IdleList(b, 0) && sys.binds[b] == IdleBind(b, 0);
    }
  }

  /** Bind `b` is at rest after `n` transfers, and so is its list. */
  predicate Resting(sys: System, b: nat, n: nat) {
    b < |sys.binds| && b < |sys.lists| && b < |sys.dma.lens| && sys.binds[b] == IdleBind(b, n) && sys.lists[b] == IdleList(b, n)
  }

  /** The one channel has nothing to do. */
  predicate Quiet(d: Dma) { |d.chans| == 1 && d.chans[0].state.Idle? && d.chans[0].q == [] }

  /** A state in which only bind `b`, its list and the engine differ. */
  function With(sys: System, b: nat, bind: Bind, ls: EventList, d: Dma): System
    requires b < |sys.binds| && b < |sys.lists|
  {
    System(sys.binds[b := bind], sys.lists[b := ls], d)
  }

  lemma StartRound(sys: System, b: nat, n: nat)
    requires Resting(sys, b, n) && Quiet(sys.dma)
    ensures Reaches(sys, With(sys, b, QueuedBind(b, n), VotedList(b, n), Enqueue(sys.dma, b, 0)))
  {
    var d := sys.dma;
    var s1 := With(sys, b, IdleBind(b, n), EventList(Members(b), Voting(0, 0), 0, n), d);
    assert Step(sys, Begin(b)) == s1;
    var one := Voted(IdleBind(b, n).WithEnd(Src, LocalEnd(b, 0, n + 1, n)), Src);
    var s2 := With(sys, b, one, EventList(Members(b), Voting(1, 1), 0, n), d);
    assert Step(s1, Visit(b)) == s2;
    var two := Voted(one.WithEnd(Dst, LocalEnd(b, 1, n + 1, n)), Dst);
    var s3 := With(sys, b, two, VotedList(b, n), d);
    assert Step(s2, Visit(b)) == s3;
    var s4 := With(sys, b, QueuedBind(b, n), VotedList(b, n), Enqueue(d, b, 0));
    assert Step(s3, Enter(b, 0)) == s4;
    hide Step;
    ReachesSelf(sys);
    ReachesStep(sys, sys, Begin(b));
    ReachesStep(sys, s1, Visit(b));
    ReachesStep(sys, s2, Visit(b));
    ReachesStep(sys, s3, Enter(b, 0));
  }

  lemma ReachesBoth(a: System, b: System, c: System)
    requires Reaches(a, b) && Reaches(b, c)
    ensures Reaches(a, c)
  {
    var ks :| IsSysRun(b, ks) && SysRun(b, ks) == c;
    ReachesAlong(a, b, ks);
  }

  lemma {:induction false} ReachesAlong(a: System, b: System, ks: seq<Label>)
    requires Reaches(a, b) && IsSysRun(b, ks)
    ensures Reaches(a, SysRun(b, ks))
    decreases |ks|
  {
    hide Step, CanStep, Reaches;
    if ks != [] {
      ReachesStep(a, b, ks[0]);
      ReachesAlong(a, Step(b, ks[0]), ks[1..]);
    }
  }

  /** The engine after it has made the one transfer queued. */
  function Made(d: Dma, b: nat): Dma
    requires Quiet(d) && b < |d.lens|
  {
    Interrupt(Enqueue(d, b, 0), 0, false)
  }

  /** A whole transfer of a resting bind, up to its completion event. */
  lemma MakeTransfer(sys: System, b: nat, n: nat)
    requires Resting(sys, b, n) && Quiet(sys.dma)
    ensures Reaches(sys, With(sys, b, QueuedBind(b, n), VotedList(b, n), Made(sys.dma, b)))
  {
    StartRound(sys, b, n);
    var s := With(sys, b, QueuedBind(b, n), VotedList(b, n), Enqueue(sys.dma, b, 0));
    hide Interrupt, Enqueue, Reaches, QueuedBind, VotedList;
    assert |s.dma.chans| == 1 by { EnqueueKeepsChannels(sys.dma, b); }
    assert Step(s, Finish(0)) == With(sys, b, QueuedBind(b, n), VotedList(b, n), Made(sys.dma, b));
    ReachesStep(sys, s, Finish(0));
  }

  lemma EnqueueKeepsChannels(d: Dma, b: nat)
    requires |d.chans| == 1 && b < |d.lens|
    ensures |Enqueue(d, b, 0).chans| == 1
  {
  }

  lemma MadeTransfer(d: Dma, b: nat)
    requires Quiet(d) && b < |d.lens|
    ensures var d' := Made(d, b);
            && Quiet(d') && d'.lens == d.lens && d'.thread == d.thread
            && (d.free == [] ==> d'.lost != [])
            && (d.free != [] ==>
                  d'.lost == d.lost && d'.free == d.free[1..] && d'.out == d.out + [Event(d.free[0], b, 0, true)])
  {
    var ch := QueueChain(d.chans[0], b, d.lens[b]).value;
    assert ch.q == [b] && ch.q[1..] == [];
  }

  /** The first `k` binds have each made a transfer whose completion the thread has not looked at. */
  ghost predicate Filled(sys: System, k: nat, binds: nat, nevents: nat) {
    && |sys.binds| == |sys.lists| == |sys.dma.lens| == binds && k <= binds && k <= nevents
    && Quiet(sys.dma) && sys.dma.thread.Waiting? && sys.dma.lost == []
    && |sys.dma.free| == nevents - k && |sys.dma.out| == k
    && (forall b :: k <= b < binds ==> Resting(sys, b, 0))
    && (k > 0 ==> sys.dma.out[0].x == 0 && sys.dma.out[0].chan == 0
                  && sys.binds[0] == QueuedBind(0, 0) && sys.lists[0] == VotedList(0, 0))
  }

  lemma FillOneMore(sys: System, k: nat, binds: nat, nevents: nat) returns (sys': System)
    requires Filled(sys, k, binds, nevents) && k < binds && k < nevents
    ensures Reaches(sys, sys') && Filled(sys', k + 1, binds, nevents)
  {
    assert Resting(sys, k, 0);
    MakeTransfer(sys, k, 0);
    MadeTransfer(sys.dma, k);
    sys' := With(sys, k, QueuedBind(k, 0), VotedList(k, 0), Made(sys.dma, k));
    hide Reaches, Made;
    forall b | k + 1 <= b < binds ensures Resting(sys', b, 0) {
      assert Resting(sys, b, 0);
    }
  }

  lemma {:induction false} FillTo(k: nat, binds: nat, nevents: nat) returns (sys: System)
    requires k <= binds && k <= nevents
    ensures Reaches(Small(binds, nevents), sys) && Filled(sys, k, binds, nevents)
  {
    hide Reaches;
    if k == 0 {
      sys := Small(binds, nevents);
      ReachesSelf(sys);
    } else {
      var before := FillTo(k - 1, binds, nevents);
      hide Small, Filled;
      sys := FillOneMore(before, k - 1, binds, nevents);
      ReachesBoth(Small(binds, nevents), before, sys);
    }
  }

  /** The bind whose completion the thread has taken. */
  function TakenBind(b: nat): Bind {
    Bind(Word(true, true, false), LocalEnd(b, 0, 1, 0), LocalEnd(b, 1, 1, 0), 0, 0, Taken, 1, 1, 1, 1)
  }

  /** The thread takes the bind's completion and makes its callback, up to giving the event back. */
  lemma ServeTransfer(sys: System, b: nat)
    requires b < |sys.binds| && b < |sys.lists| && b < |sys.dma.lens| && Quiet(sys.dma) && sys.dma.thread.Waiting?
    requires sys.binds[b] == QueuedBind(b, 0) && sys.lists[b] == VotedList(b, 0)
    requires sys.dma.out != [] && sys.dma.out[0].x == b && sys.dma.out[0].chan == 0
    ensures Reaches(sys, With(sys, b, IdleBind(b, 1), VotedList(b, 0).(sync := 2), CallbackDone(Fetch(sys.dma))))
  {
    var d, ls := Fetch(sys.dma), VotedList(b, 0);
    var s1 := With(sys, b, TakenBind(b), ls, d);
    assert Step(sys, Pick) == s1;
    var q4 := Bind(Word(true, false, true), LocalEnd(b, 0, 1, 0), LocalEnd(b, 1, 1, 1), 0, 0, DstSignalled, 1, 1, 1, 1);
    hide Step, Reaches, VotedList;
    ReachesSelf(sys);
    ReachesStep(sys, sys, Pick);
    ServeDst(sys, b, d, q4);
    ServeRest(sys, b, q4, d);
    ReachesBoth(sys, s1, With(sys, b, q4, ls.(sync := 1), d));
    ReachesBoth(sys, With(sys, b, q4, ls.(sync := 1), d), With(sys, b, IdleBind(b, 1), ls.(sync := 2), CallbackDone(d)));
  }

  lemma ServeDst(sys: System, b: nat, d: Dma, q4: Bind)
    requires b < |sys.binds| && b < |sys.lists| && b < |d.lens| && |d.chans| == 1
    requires d.thread.Handling? && d.thread.e.x == b
    requires q4 == Bind(Word(true, false, true), LocalEnd(b, 0, 1, 0), LocalEnd(b, 1, 1, 1), 0, 0, DstSignalled, 1, 1, 1, 1)
    ensures Reaches(With(sys, b, TakenBind(b), VotedList(b, 0), d), With(sys, b, q4, VotedList(b, 0).(sync := 1), d))
  {
    var ls := VotedList(b, 0);
    var s1 := With(sys, b, TakenBind(b), ls, d);
    var q2 := Apply(TakenBind(b), Open);
    var s2 := With(sys, b, q2, ls, d);
    assert Step(s1, Call(0)) == s2;
    var q3 := Apply(q2, Clear(Dst));
    var s3 := With(sys, b, q3, ls, d);
    assert Step(s2, Call(0)) == s3;
    var s4 := With(sys, b, q4, ls.(sync := 1), d);
    assert Step(s3, Call(0)) == s4;
    hide Step, Reaches;
    ReachesSelf(s1);
    ReachesStep(s1, s1, Call(0));
    ReachesStep(s1, s2, Call(0));
    ReachesStep(s1, s3, Call(0));
  }

  lemma ServeRest(sys: System, b: nat, q4: Bind, d: Dma)
    requires b < |sys.binds| && b < |sys.lists| && b < |d.lens| && |d.chans| == 1
    requires d.thread.Handling? && d.thread.e.x == b
    requires q4 == Bind(Word(true, false, true), LocalEnd(b, 0, 1, 0), LocalEnd(b, 1, 1, 1), 0, 0, DstSignalled, 1, 1, 1, 1)
    ensures var ls := VotedList(b, 0);
            Reaches(With(sys, b, q4, ls.(sync := 1), d), With(sys, b, IdleBind(b, 1), ls.(sync := 2), CallbackDone(d)))
  {
    var ls := VotedList(b, 0);
    var s4 := With(sys, b, q4, ls.(sync := 1), d);
    var q5 := Apply(q4, Clear(Src));
    var s5 := With(sys, b, q5, ls.(sync := 1), d);
    assert Step(s4, Call(0)) == s5;
    var q6 := Apply(q5, Signal(Src));
    var s6 := With(sys, b, q6, ls.(sync := 2), d);
    assert Step(s5, Call(0)) == s6;
    var s7 := With(sys, b, IdleBind(b, 1), ls.(sync := 2), CallbackDone(d));
    assert Step(s6, Call(0)) == s7;
    hide Step, Reaches;
    ReachesSelf(s4);
    ReachesStep(s4, s4, Call(0));
    ReachesStep(s4, s5, Call(0));
    ReachesStep(s4, s6, Call(0));
  }

  /** The start of the bind's list returns. */
  lemma ReturnStart(sys: System, b: nat)
    requires b < |sys.binds| && b < |sys.lists| && sys.lists[b] == VotedList(b, 0).(sync := 2)
    ensures Reaches(sys, With(sys, b, sys.binds[b], IdleList(b, 1), sys.dma))
  {
    var bind, ls, d := sys.binds[b], sys.lists[b], sys.dma;
    var s1 := With(sys, b, bind, ls.(phase := Syncing(2)), d);
    assert Step(sys, Drain(b)) == s1;
    var s2 := With(sys, b, bind, ls.(phase := Syncing(1), sync := 1), d);
    assert Step(s1, Wait(b)) == s2;
    var s3 := With(sys, b, bind, ls.(phase := Syncing(0), sync := 0), d);
    assert Step(s2, Wait(b)) == s3;
    var s4 := With(sys, b, bind, IdleList(b, 1), d);
    assert Step(s3, Unlock(b)) == s4;
    hide Step, Reaches;
    ReachesSelf(sys);
    ReachesStep(sys, sys, Drain(b));
    ReachesStep(sys, s1, Wait(b));
    ReachesStep(sys, s2, Wait(b));
    ReachesStep(sys, s3, Unlock(b));
  }

  /**
   With as many binds as events, or more: all events hold completions, the thread's callback of the first
   lets its bind be started again before the event is given back, and that transfer finds no event.
   */
  lemma CompletionDropped(binds: nat, nevents: nat) returns (sys: System)
    requires 0 < binds && nevents <= binds
    ensures Reaches(Small(binds, nevents), sys) && sys.dma.lost != []
  {
    var full := FillTo(nevents, binds, nevents);
    if nevents == 0 {
      assert Resting(full, 0, 0);
      MakeTransfer(full, 0, 0);
      MadeTransfer(full.dma, 0);
      sys := With(full, 0, QueuedBind(0, 0), VotedList(0, 0), Made(full.dma, 0));
      hide Reaches;
      ReachesBoth(Small(binds, nevents), full, sys);
    } else {
      hide Reaches, Small;
      sys := DropWhenFull(full, binds, nevents);
      ReachesBoth(Small(binds, nevents), full, sys);
    }
  }

  lemma DropWhenFull(full: System, binds: nat, nevents: nat) returns (sys: System)
    requires Filled(full, nevents, binds, nevents) && 0 < nevents <= binds
    ensures Reaches(full, sys) && sys.dma.lost != []
  {
    hide Reaches, Interrupt, Enqueue, Step, CanStep;
    ServeTransfer(full, 0);
    var served := With(full, 0, IdleBind(0, 1), VotedList(0, 0).(sync := 2), CallbackDone(Fetch(full.dma)));
    ReturnStart(served, 0);
    var again := With(served, 0, IdleBind(0, 1), IdleList(0, 1), served.dma);
    ReachesBoth(full, served, again);
    assert Quiet(again.dma) && again.dma.free == [];
    MakeTransfer(again, 0, 1);
    MadeTransfer(again.dma, 0);
    sys := With(again, 0, QueuedBind(0, 1), VotedList(0, 1), Made(again.dma, 0));
    ReachesBoth(full, again, sys);
  }

  /** Without binds there is never anything to complete. */
  ghost predicate NoWork(sys: System) {
    && sys.binds == [] && sys.dma.out == [] && sys.dma.thread.Waiting? && sys.dma.lost == []
    && forall c :: 0 <= c < |sys.dma.chans| ==> sys.dma.chans[c].q == []
  }

  lemma NoWorkStays(sys: System, k: Label)
    requires NoWork(sys) && CanStep(sys, k)
    ensures NoWork(Step(sys, k))
  {
    hide Apply, Completes;
  }

  lemma {:induction false} NoBindsNoDrops(sys: System, ks: seq<Label>)
    requires NoWork(sys) && IsSysRun(sys, ks)
    ensures SysRun(sys, ks).dma.lost == []
    decreases |ks|
  {
    hide CanStep, Step;
    if ks != [] {
      NoWorkStays(sys, ks[0]);
      NoBindsNoDrops(Step(sys, ks[0]), ks[1..]);
    }
  }

  /** Whether no run of any system with this many binds and events drops a completion. */
  ghost predicate NeverDrops(binds: nat, nevents: nat) {
    forall sys: System, nchans: nat, ks: seq<Label> ::
      InitialSystem(sys, nchans, nevents) && |sys.binds| == binds && IsSysRun(sys, ks) ==> SysRun(sys, ks).dma.lost == []
  }

  /** The number of events is enough exactly if it exceeds the number of binds, or there are none. */
  lemma NeverDropsIff(binds: nat, nevents: nat)
    ensures NeverDrops(binds, nevents) <==> binds < nevents || binds == 0
  {
    if binds < nevents {
      forall sys: System, nchans: nat, ks: seq<Label> | InitialSystem(sys, nchans, nevents) && |sys.binds| == binds && IsSysRun(sys, ks)
        ensures SysRun(sys, ks).dma.lost == []
      {
        NoCompletionLost(sys, nchans, nevents, ks);
      }
    } else if binds > 0 {
      var sys := CompletionDropped(binds, nevents);
      SmallIsInitial(binds, nevents);
      var ks :| IsSysRun(Small(binds, nevents), ks) && SysRun(Small(binds, nevents), ks) == sys;
    } else {
      forall sys: System, nchans: nat, ks: seq<Label> | InitialSystem(sys, nchans, nevents) && |sys.binds| == binds && IsSysRun(sys, ks)
        ensures SysRun(sys, ks).dma.lost == []
      {
        NoBindsNoDrops(sys, ks);
      }
    }
  }
}
