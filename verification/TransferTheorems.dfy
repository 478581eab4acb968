/**
 What holds over every run of the transfer system.
 */
module TransferTheorems {
  import opened Results
  import opened Votes
  import opened BindProtocol
  import opened Scheduler
  import opened Transfers

  /** Binds that were just created, event lists that hold each endpoint once, and an engine just set up. */
  ghost predicate InitialSystem(sys: System, nchans: nat, nevents: nat) {
    && (forall b :: 0 <= b < |sys.binds| ==> BindProtocol.Initial(sys.binds[b]))
    && (forall l :: 0 <= l < |sys.lists| ==> sys.lists[l] == EventList(sys.lists[l].members, Unlocked, 0, 0))
    && HomesInv(sys)
    && sys.dma == Boot(sys.dma.lens, nchans, nevents) && |sys.dma.lens| == |sys.binds|
  }

  ghost predicate IsSysRun(sys: System, ks: seq<Label>)
    decreases |ks|
  {
    ks == [] || (CanStep(sys, ks[0]) && IsSysRun(Step(sys, ks[0]), ks[1..]))
  }

  ghost function SysRun(sys: System, ks: seq<Label>): System
    requires IsSysRun(sys, ks)
    decreases |ks|
  {
    if ks == [] then sys else SysRun(Step(sys, ks[0]), ks[1..])
  }

  lemma InitialSysInv(sys: System, nchans: nat, nevents: nat)
    requires InitialSystem(sys, nchans, nevents)
    ensures SysInv(sys, nevents)
  {
    BootInv(sys.dma.lens, nchans, nevents);
    hide DmaInv, InFlight, Boot, HomesInv;
    assert BindsInv(sys) by {
      forall b | 0 <= b < |sys.binds| ensures BindInv(sys.binds[b]) {
        InitialInv(sys.binds[b]);
      }
    }
    assert ListsInv(sys) by { InitialLists(sys); }
    hide BindsInv, ListsInv;
    assert sys.dma.thread == Waiting by { BootWaits(sys.dma.lens, nchans, nevents); }
  }

  lemma BootWaits(lens: seq<nat>, nchans: nat, nevents: nat)
    ensures Boot(lens, nchans, nevents).thread == Waiting
  {
  }

  lemma InitialLists(sys: System)
    requires forall b :: 0 <= b < |sys.binds| ==> BindProtocol.Initial(sys.binds[b])
    requires forall l :: 0 <= l < |sys.lists| ==> sys.lists[l] == EventList(sys.lists[l].members, Unlocked, 0, 0)
    requires HomesInv(sys)
    ensures ListsInv(sys)
  {
    hide Listed;
    forall l | 0 <= l < |sys.lists| ensures ListInv(sys.binds, sys.lists[l]) {
      var ls := sys.lists[l];
      forall i | 0 <= i < |ls.members|
        ensures MemberInv(sys.binds, ls.members[i], 0, false) && !FinishedMember(sys.binds, ls.members[i], 0)
      {
        assert AtHome(sys.binds, ls.members[i], l, i);
      }
      FinishedNone(sys.binds, ls.members, 0);
      hide MemberInv, FinishedMember, Finished;
    }
  }

  lemma {:induction false} RunKeepsSysInv(sys: System, nevents: nat, ks: seq<Label>)
    requires SysInv(sys, nevents) && IsSysRun(sys, ks)
    ensures SysInv(SysRun(sys, ks), nevents)
    decreases |ks|
  {
    hide SysInv, CanStep, Step;
    if ks != [] {
      StepKeepsSysInv(sys, nevents, ks[0]);
      RunKeepsSysInv(Step(sys, ks[0]), nevents, ks[1..]);
    }
  }

  /**
   The start lock and the counting of completions keep every endpoint from being voted twice before its
   done: in every state of every run, whichever step comes next is sound and no vote assertion fires in it.
   */
  lemma NoAssertionFires(sys: System, nchans: nat, nevents: nat, ks: seq<Label>, k: Label)
    requires InitialSystem(sys, nchans, nevents) && IsSysRun(sys, ks) && CanStep(SysRun(sys, ks), k)
    ensures var r := SysRun(sys, ks);
            Sound(r, k) && (BindAction(r, k).Some? ==> !Asserts(r.binds[BindAction(r, k).value.0], BindAction(r, k).value.1))
  {
    InitialSysInv(sys, nchans, nevents);
    RunKeepsSysInv(sys, nevents, ks);
    var r := SysRun(sys, ks);
    hide SysRun, IsSysRun, InitialSystem;
    StepKeepsSysInv(r, nevents, k);
    var ba := BindAction(r, k);
    if ba.Some? {
      var (b, a) := ba.value;
      hide BindAction, CanStep, ListsInv, HomesInv, DmaInv, FlightInv, ThreadInv, BindInv, Asserts, Enabled, CanTell;
      assert BindInv(r.binds[b]);
      StepKeepsInv(r.binds[b], a);
    }
  }

  /** vfi_events_start returns only when the engine has carried out the transfer of every endpoint it started. */
  lemma StartReturnsAfterTransfers(sys: System, nchans: nat, nevents: nat, ks: seq<Label>, l: nat, i: nat)
    requires InitialSystem(sys, nchans, nevents) && IsSysRun(sys, ks) && CanStep(SysRun(sys, ks), Unlock(l))
    requires i < |SysRun(sys, ks).lists[l].members| && SysRun(sys, ks).lists[l].members[i].Start?
    ensures var r := SysRun(sys, ks);
            var m, n := r.lists[l].members[i], r.lists[l].rounds + 1;
            && m.b < |r.binds| && r.lists[l].sync == 0
            && r.binds[m.b].End(m.s).starts == r.binds[m.b].End(m.s).completes == n
            && r.binds[m.b].taken == r.binds[m.b].issued == n
  {
    InitialSysInv(sys, nchans, nevents);
    RunKeepsSysInv(sys, nevents, ks);
    var r := SysRun(sys, ks);
    hide SysRun, IsSysRun, InitialSystem;
    ReturnedMember(r, nevents, l, i);
  }

  lemma ReturnedMember(r: System, nevents: nat, l: nat, i: nat)
    requires SysInv(r, nevents) && CanStep(r, Unlock(l)) && i < |r.lists[l].members| && r.lists[l].members[i].Start?
    ensures var m, n := r.lists[l].members[i], r.lists[l].rounds + 1;
            && m.b < |r.binds| && r.lists[l].sync == 0
            && r.binds[m.b].End(m.s).starts == r.binds[m.b].End(m.s).completes == n
            && r.binds[m.b].taken == r.binds[m.b].issued == n
  {
    hide HomesInv, FlightInv, ThreadInv, DmaInv, ListInv, BindInv;
    var ls := r.lists[l];
    assert ListInv(r.binds, ls);
    DrainedListIsFinished(r.binds, ls);
    var m := ls.members[i];
    assert MemberInv(r.binds, m, ls.rounds + 1, false);
    assert BindInv(r.binds[m.b]);
    AllTransferred(r.binds[m.b], m.s);
  }

  lemma AllTransferred(b: Bind, s: Side)
    requires BindInv(b) && b.End(s).starts == b.End(s).completes
    ensures b.taken == b.issued == b.End(s).starts
  {
    assert EndInv(b, s);
  }

  /**
   Each channel runs exactly while it has transfers, its hardware is on the head of its queue, transfers
   leave it once each in the order in which they were queued, and its byte count is that of its queue, of
   its completions not fetched yet and of those lost.
   */
  lemma ChannelsKeepOrder(sys: System, nchans: nat, nevents: nat, ks: seq<Label>, c: nat)
    requires InitialSystem(sys, nchans, nevents) && IsSysRun(sys, ks) && c < |SysRun(sys, ks).dma.chans|
    ensures var d := SysRun(sys, ks).dma; var ch := d.chans[c];
            && (ch.state.Running? <==> ch.q != []) && (ch.state.Idle? <==> ch.q == [])
            && ch.hw == (if ch.q == [] then None else Some(ch.q[0]))
            && ch.done + ch.q == ch.queued
            && ch.bytes == Bytes(d.lens, ch.q) + Bytes(d.lens, Of(d.out, c)) + Bytes(d.lens, Of(d.lost, c))
  {
    InitialSysInv(sys, nchans, nevents);
    RunKeepsSysInv(sys, nevents, ks);
    hide BindsInv, HomesInv, ListsInv, FlightInv, ThreadInv, SysRun, IsSysRun, InitialSystem, EventsInv, OnceInv, Shape, HistoryInv, Bytes, Of;
    assert ChanInv(SysRun(sys, ks).dma.chans[c]);
  }

  /**
   Each event object has one owner, so neither ring is ever asked to hold more than it can; completions
   sent are fetched once each, in order; and no transfer is in the engine, or lost, twice.
   */
  lemma EventsHaveOneOwner(sys: System, nchans: nat, nevents: nat, ks: seq<Label>)
    requires InitialSystem(sys, nchans, nevents) && IsSysRun(sys, ks)
    ensures var d := SysRun(sys, ks).dma;
            && multiset(Owned(d)) == multiset(seq(nevents, i => i))
            && |d.free| + |d.out| + |Held(d.thread)| == nevents
            && d.fetched + d.out == d.sent
            && (forall x :: InFlight(d)[x] <= 1)
  {
    InitialSysInv(sys, nchans, nevents);
    RunKeepsSysInv(sys, nevents, ks);
    hide BindsInv, HomesInv, ListsInv, FlightInv, ThreadInv, SysRun, IsSysRun, InitialSystem, ChansInv, Shape, BytesInv, InFlight, Owned, Held;
    OwnedSize(SysRun(sys, ks).dma, nevents);
  }

  lemma EnqueueLosesNothing(d: Dma, x: nat, c: nat)
    requires c < |d.chans| && x < |d.lens|
    ensures Enqueue(d, x, c).lost == d.lost && Enqueue(d, x, c).thread == d.thread
  {
  }

  lemma CallLosesNothing(sys: System, c: nat)
    requires CanStep(sys, Call(c)) && Sound(sys, Call(c))
    ensures CallStep(sys, c).dma.lost == sys.dma.lost && |CallStep(sys, c).binds| == |sys.binds|
  {
    hide Apply, Completes, Enabled, Enqueue;
    var x := sys.dma.thread.e.x;
    CallShape(sys, c, x, CallbackAction(sys.binds[x]));
    hide CallbackAction, CanTell;
    EnqueueLosesNothing(sys.dma, x, c);
  }

  /** Only an interrupt can lose a completion, and with fewer binds than events none does. */
  lemma StepLosesNothing(sys: System, nevents: nat, k: Label)
    requires SysInv(sys, nevents) && |sys.binds| < nevents && CanStep(sys, k)
    ensures Step(sys, k).dma.lost == sys.dma.lost && |Step(sys, k).binds| == |sys.binds|
  {
    hide SysInv, CallStep, Interrupt, VisitStep, ToldStep;
    if Sound(sys, k) {
      if k.Finish? {
        FinishLosesNothing(sys, nevents, k.c);
      } else if k.Call? {
        CallLosesNothing(sys, k.c);
      } else {
        OtherLosesNothing(sys, k);
      }
    }
  }

  lemma FinishLosesNothing(sys: System, nevents: nat, c: nat)
    requires SysInv(sys, nevents) && |sys.binds| < nevents && c < |sys.dma.chans|
    ensures Interrupt(sys.dma, c, false).lost == sys.dma.lost
  {
    hide BindsInv, ThreadInv, HomesInv, ListsInv, DmaInv, Interrupt;
    NothingLost(sys.dma, nevents, c);
  }

  lemma OtherLosesNothing(sys: System, k: Label)
    requires CanStep(sys, k) && Sound(sys, k) && !k.Finish? && !k.Call?
    ensures SoundStep(sys, k).dma.lost == sys.dma.lost && |SoundStep(sys, k).binds| == |sys.binds|
  {
    hide Apply, Completes, Enabled, CanTell, Enqueue;
    if k.Enter? {
      EnqueueLosesNothing(sys.dma, k.b, k.c);
    }
  }

  lemma {:induction false} RunLosesNothing(sys: System, nevents: nat, ks: seq<Label>)
    requires SysInv(sys, nevents) && |sys.binds| < nevents && IsSysRun(sys, ks)
    ensures SysRun(sys, ks).dma.lost == sys.dma.lost
    decreases |ks|
  {
    hide SysInv, CanStep, Step;
    if ks != [] {
      StepKeepsSysInv(sys, nevents, ks[0]);
      StepLosesNothing(sys, nevents, ks[0]);
      RunLosesNothing(Step(sys, ks[0]), nevents, ks[1..]);
    }
  }

  /** With fewer binds than event objects no completion is ever lost, and the byte counts have nothing else in them. */
  lemma NoCompletionLost(sys: System, nchans: nat, nevents: nat, ks: seq<Label>)
    requires InitialSystem(sys, nchans, nevents) && |sys.binds| < nevents && IsSysRun(sys, ks)
    ensures var d := SysRun(sys, ks).dma;
            && d.lost == []
            && (forall c {:trigger d.chans[c]} :: 0 <= c < |d.chans| ==>
                  d.chans[c].bytes == Bytes(d.lens, d.chans[c].q) + Bytes(d.lens, Of(d.out, c)))
  {
    InitialSysInv(sys, nchans, nevents);
    RunLosesNothing(sys, nevents, ks);
    var d := SysRun(sys, ks).dma;
    forall c {:trigger d.chans[c]} | 0 <= c < |d.chans|
      ensures d.chans[c].bytes == Bytes(d.lens, d.chans[c].q) + Bytes(d.lens, Of(d.out, c))
    {
      ChannelsKeepOrder(sys, nchans, nevents, ks, c);
      assert Bytes(d.lens, Of([], c)) == 0;
    }
  }

  // ---- A start that does not return ---------------------------------------------------------------------------

  /** Nothing can happen but another start: no message, no transfer, no callback and no waiting goes on. */
  ghost predicate Stalled(sys: System) {
    forall k: Label :: CanStep(sys, k) ==> k.Begin? || (k.Finish? && sys.dma.chans[k.c].q == [])
  }

  lemma {:induction false} FinishedAll(binds: seq<Bind>, ms: seq<Member>, rounds: nat)
    requires forall i :: 0 <= i < |ms| ==> (ms[i].Start? ==> FinishedMember(binds, ms[i], rounds))
    ensures Finished(binds, ms, rounds) == Starts(ms)
  {
    if ms != [] {
      FinishedAll(binds, ms[..|ms| - 1], rounds);
    }
  }

  lemma {:induction false} QueuedSomewhere(chs: seq<Chan>, x: nat)
    requires x in Queued(chs)
    ensures exists c {:trigger chs[c]} :: 0 <= c < |chs| && chs[c].q != []
  {
    if chs[0].q == [] {
      QueuedSomewhere(chs[1..], x);
      var c :| 0 <= c < |chs[1..]| && chs[1..][c].q != [];
      assert chs[c + 1].q != [];
    }
  }

  lemma StalledThread(sys: System)
    requires Stalled(sys) && sys.dma.chans != []
    ensures sys.dma.thread.Waiting? && sys.dma.out == []
  {
    assert !CanStep(sys, PutEvent) && !CanStep(sys, Pick) && !CanStep(sys, Call(0));
  }

  lemma StalledEngineIsEmpty(sys: System, b: nat)
    requires Stalled(sys) && sys.dma.chans != [] && FlightInv(sys) && b < |sys.binds| && b !in Scheduler.Transfers(sys.dma.lost)
    ensures sys.binds[b].inDma == 0
  {
    StalledThread(sys);
    if InFlight(sys.dma)[b] > 0 {
      assert b in Queued(sys.dma.chans);
      QueuedSomewhere(sys.dma.chans, b);
      var c: nat :| c < |sys.dma.chans| && sys.dma.chans[c].q != [];
      assert CanStep(sys, Finish(c));
    }
  }

  lemma StalledBindIsAtRest(sys: System, b: nat)
    requires Stalled(sys) && sys.dma.chans != [] && FlightInv(sys) && ThreadInv(sys) && b < |sys.binds| && b !in Scheduler.Transfers(sys.dma.lost)
    ensures AtRest(sys.binds[b])
  {
    StalledEngineIsEmpty(sys, b);
    StalledThread(sys);
    var bind := sys.binds[b];
    assert bind.stage.Rest? by { assert !Handles(sys.dma.thread, b); }
    hide FlightInv, ThreadInv;
    assert !CanStep(sys, Enter(b, 0));
    forall s: Side
      ensures bind.End(s).halfReady == bind.End(s).readyFly == bind.End(s).doneFly == bind.End(s).signal == 0
    {
      assert !CanStep(sys, Send(b, s)) && !CanStep(sys, Arrive(b, s)) && !CanStep(sys, Return(b, s)) && !CanStep(sys, Tell(b, s));
    }
  }

  /**
   No message, vote or transfer goes missing: a start that waits forever waits for an endpoint whose peer was
   started less often, or for a bind whose completion was lost for want of an event.
   */
  lemma StalledStartWaitsForPeer(sys: System, nchans: nat, nevents: nat, ks: seq<Label>, l: nat)
    requires InitialSystem(sys, nchans, nevents) && IsSysRun(sys, ks)
    requires var r := SysRun(sys, ks); Stalled(r) && r.dma.chans != [] && l < |r.lists| && !r.lists[l].phase.Unlocked?
    ensures var r := SysRun(sys, ks);
            exists i {:trigger r.lists[l].members[i]} :: 0 <= i < |r.lists[l].members| &&
              var m := r.lists[l].members[i];
              m.Start? && m.b < |r.binds| &&
              (r.binds[m.b].End(m.s.Other()).starts < r.binds[m.b].End(m.s).starts || m.b in Scheduler.Transfers(r.dma.lost))
  {
    InitialSysInv(sys, nchans, nevents);
    RunKeepsSysInv(sys, nevents, ks);
    var r := SysRun(sys, ks);
    hide SysRun, IsSysRun, InitialSystem;
    StalledListWaits(r, nevents, l);
  }

  lemma StalledListWaits(r: System, nevents: nat, l: nat)
    requires SysInv(r, nevents) && Stalled(r) && r.dma.chans != [] && l < |r.lists| && !r.lists[l].phase.Unlocked?
    ensures exists i {:trigger r.lists[l].members[i]} :: 0 <= i < |r.lists[l].members| &&
              var m := r.lists[l].members[i];
              m.Start? && m.b < |r.binds| &&
              (r.binds[m.b].End(m.s.Other()).starts < r.binds[m.b].End(m.s).starts || m.b in Scheduler.Transfers(r.dma.lost))
  {
    StalledInWait(r, l);
    hide Stalled, DmaInv, HomesInv, FlightInv, ThreadInv, BindsInv;
    var ls := r.lists[l];
    assert ListInv(r.binds, ls);
    var i := UnfinishedMember(r.binds, ls);
    var m := ls.members[i];
    hide ListInv, ListsInv, Scheduler.Transfers;
    if m.b !in Scheduler.Transfers(r.dma.lost) {
      LaggingPeer(r, m);
    }
  }

  lemma UnfinishedMember(binds: seq<Bind>, ls: EventList) returns (i: nat)
    requires ListInv(binds, ls) && ls.phase.Syncing? && ls.phase.wait > 0 && ls.sync == 0
    ensures i < |ls.members| && ls.members[i].Start? && ls.members[i].b < |binds|
    ensures var e := binds[ls.members[i].b].End(ls.members[i].s); e.completes < e.starts
  {
    if forall k :: 0 <= k < |ls.members| ==> (ls.members[k].Start? ==> FinishedMember(binds, ls.members[k], ls.rounds)) {
      FinishedAll(binds, ls.members, ls.rounds);
      assert false;
    }
    i :| i < |ls.members| && ls.members[i].Start? && !FinishedMember(binds, ls.members[i], ls.rounds);
    assert MemberInv(binds, ls.members[i], ls.rounds, true);
  }

  lemma LaggingPeer(r: System, m: Member)
    requires FlightInv(r) && ThreadInv(r) && BindsInv(r) && Stalled(r) && r.dma.chans != []
    requires m.Start? && m.b < |r.binds| && m.b !in Scheduler.Transfers(r.dma.lost)
    requires r.binds[m.b].End(m.s).completes < r.binds[m.b].End(m.s).starts
    ensures r.binds[m.b].End(m.s.Other()).starts < r.binds[m.b].End(m.s).starts
  {
    hide BindInv;
    StalledBindIsAtRest(r, m.b);
    hide AtRest, Stalled, FlightInv, ThreadInv;
    RestMeansDone(r.binds[m.b]);
  }

  lemma StalledInWait(r: System, l: nat)
    requires Stalled(r) && l < |r.lists| && !r.lists[l].phase.Unlocked?
    ensures r.lists[l].phase.Syncing? && r.lists[l].phase.wait > 0 && r.lists[l].sync == 0
  {
    assert !CanStep(r, Visit(l)) && !CanStep(r, Drain(l)) && !CanStep(r, Unlock(l)) && !CanStep(r, Wait(l));
  }
}
