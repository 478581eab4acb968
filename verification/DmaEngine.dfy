/**
 The RapidIO DMA driver as it runs: channels, rings and event objects updated in place, against the steps
 of the scheduler.
 */
module DmaEngine {
  import opened Results
  import opened Ring
  import opened Scheduler

  /** A field of struct ppc_dma_event: the transfer, the channel and whether it went well. */
  datatype Report = Report(x: nat, chan: nat, ok: bool)

  /** Event `id` as its object has it. */
  function EventAt(reports: seq<Report>, id: nat): Event {
    var r := if id < |reports| then reports[id] else Report(0, 0, false);
    Event(id, r.x, r.chan, r.ok)
  }

  function EventsOf(ids: seq<nat>, reports: seq<Report>): seq<Event> {
    seq(|ids|, i requires 0 <= i < |ids| => EventAt(reports, ids[i]))
  }

  /** Exactly the events 0 to n-1, once each. */
  ghost predicate Partition(free: seq<nat>, out: seq<nat>, held: seq<nat>, n: nat) {
    multiset(free + out + held) == multiset(seq(n, i => i))
  }

  lemma {:induction false} CountUpTo(n: nat, x: nat)
    ensures multiset(seq(n, i => i))[x] == if x < n then 1 else 0
  {
    if n > 0 {
      CountUpTo(n - 1, x);
      assert seq(n, i => i) == seq(n - 1, i => i) + [n - 1];
    }
  }

  /** The first free event belongs to nobody else, and the rings have room for every event. */
  lemma PartitionFacts(free: seq<nat>, out: seq<nat>, held: seq<nat>, n: nat)
    requires Partition(free, out, held, n)
    ensures Below(free, n) && Below(out, n) && Below(held, n)
    ensures free != [] ==> free[0] < n && free[0] !in out
    ensures |free| + |out| + |held| == n
  {
    var all := free + out + held;
    assert |multiset(all)| == |all| && |multiset(seq(n, i => i))| == n;
    forall x | x in all ensures x < n {
      CountUpTo(n, x);
      assert x in multiset(all);
    }
    assert forall x :: x in free ==> x in all;
    assert forall x :: x in out ==> x in all;
    assert forall x :: x in held ==> x in all;
    if free != [] {
      CountUpTo(n, free[0]);
      assert multiset(all)[free[0]] == multiset(free)[free[0]] + multiset(out)[free[0]] + multiset(held)[free[0]];
      assert multiset(free)[free[0]] >= 1;
    }
  }

  /** The driver's state as the scheduler sees it, from the rings' contents and the event objects. */
  function Seen(lens: seq<nat>, chans: seq<Chan>, free: seq<nat>, out: seq<nat>, reports: seq<Report>, thread: Thread,
                lost: seq<Event>, sent: seq<Event>, fetched: seq<Event>): Dma
  {
    Dma(lens, chans, free, EventsOf(out, reports), thread, lost, sent, fetched)
  }

  /** Filling in a free event and passing it on is what the scheduler calls sending a completion. */
  lemma SeenAfterSend(lens: seq<nat>, chans: seq<Chan>, free: seq<nat>, out: seq<nat>, reports: seq<Report>, thread: Thread,
                      lost: seq<Event>, sent: seq<Event>, fetched: seq<Event>, r: Report)
    requires free != [] && free[0] < |reports| && free[0] !in out
    ensures Seen(lens, chans, free[1..], out + [free[0]], reports[free[0] := r], thread, lost,
                 sent + [Event(free[0], r.x, r.chan, r.ok)], fetched)
         == SendCompletion(Seen(lens, chans, free, out, reports, thread, lost, sent, fetched), r.chan, r.x, r.ok)
  {
    var e := Event(free[0], r.x, r.chan, r.ok);
    assert EventsOf(out + [free[0]], reports[free[0] := r]) == EventsOf(out, reports) + [e];
  }

  lemma SeenAfterDrop(lens: seq<nat>, chans: seq<Chan>, out: seq<nat>, reports: seq<Report>, thread: Thread,
                      lost: seq<Event>, sent: seq<Event>, fetched: seq<Event>, r: Report)
    ensures Seen(lens, chans, [], out, reports, thread, lost + [Event(0, r.x, r.chan, r.ok)], sent, fetched)
         == SendCompletion(Seen(lens, chans, [], out, reports, thread, lost, sent, fetched), r.chan, r.x, r.ok)
  {
  }

  lemma SeenAtBoot(lens: seq<nat>, nchans: nat, nevents: nat, reports: seq<Report>)
    ensures Partition(seq(nevents, i => i), [], Held(Waiting), nevents)
    ensures Seen(lens, seq(nchans, _ => Chan(Idle, [], 0, None, [], [])), seq(nevents, i => i), [], reports, Waiting, [], [], [])
         == Boot(lens, nchans, nevents)
  {
    assert seq(nevents, i => i) + [] + [] == seq(nevents, i => i);
  }

  /** Taking the oldest completion off the ring. */
  lemma SeenAfterFetch(lens: seq<nat>, chans: seq<Chan>, free: seq<nat>, out: seq<nat>, reports: seq<Report>,
                       lost: seq<Event>, sent: seq<Event>, fetched: seq<Event>)
    requires out != []
    requires var e := EventAt(reports, out[0]); e.chan < |chans| && e.x < |lens|
    ensures var e := EventAt(reports, out[0]);
            var settled := chans[e.chan].(bytes := chans[e.chan].bytes - lens[e.x]);
            Fetch(Seen(lens, chans, free, out, reports, Waiting, lost, sent, fetched))
            == Seen(lens, chans[e.chan := settled], free, out[1..], reports, Handling(e), lost, sent, fetched + [e])
  {
    assert EventsOf(out[1..], reports) == EventsOf(out, reports)[1..];
  }

  class Engine {
    const lens: seq<nat>
    const firstChan: nat
    const lastChan: nat
    const chans: array<Chan>
    var nextChannel: nat
    const reports: array<Report>
    const ringIn: RingBuf<nat>
    const ringOut: RingBuf<nat>
    ghost var thread: Thread
    ghost var lost: seq<Event>
    ghost var sent: seq<Event>
    ghost var fetched: seq<Event>

    /** The rings hold every event that the thread does not, and have room for all of them. */
    ghost predicate Valid()
      reads this`thread, ringIn, ringIn.slots, ringOut, ringOut.slots
    {
      && ringIn != ringOut && ringIn.slots != ringOut.slots
      && ringIn.Valid() && ringOut.Valid()
      && ringIn.slots.Length == ringOut.slots.Length == reports.Length + 1
      && firstChan <= lastChan < chans.Length
      && Partition(ringIn.Contents(), ringOut.Contents(), Held(thread), reports.Length)
    }

    ghost predicate InTurn()
      reads this`nextChannel
    {
      firstChan <= nextChannel <= lastChan
    }

    ghost function State(): Dma
      reads this`thread, this`lost, this`sent, this`fetched
      reads chans, reports, ringIn, ringIn.slots, ringOut, ringOut.slots
      requires Valid()
    {
      Seen(lens, chans[..], ringIn.Contents(), ringOut.Contents(), reports[..], thread, lost, sent, fetched)
    }

    /** dma_rio_init and the set-up of its channels: every event is free, and the channels are idle. */
    constructor (lens: seq<nat>, first: nat, last: nat, nchans: nat, nevents: nat)
      requires first <= last < nchans
      ensures Valid() && InTurn() && State() == Boot(lens, nchans, nevents) && nextChannel == first
      ensures fresh(chans) && fresh(reports) && fresh(ringIn) && fresh(ringIn.slots) && fresh(ringOut) && fresh(ringOut.slots)
    {
      var rin, rout := Rings(nevents);
      var idle := new Chan[nchans](_ => Chan(Idle, [], 0, None, [], []));
      var blank := new Report[nevents](_ => Report(0, 0, false));
      this.lens := lens;
      firstChan, lastChan, nextChannel := first, last, first;
      chans, reports, ringIn, ringOut := idle, blank, rin, rout;
      thread, lost, sent, fetched := Waiting, [], [], [];
      new;
      hide Between, Partition, Seen, Boot, Held;
      assert chans[..] == seq(nchans, _ => Chan(Idle, [], 0, None, [], []));
      SeenAtBoot(lens, nchans, nevents, reports[..]);
    }

    /** The ring of free events, full, and the ring of completions, empty. */
    static method Rings(nevents: nat) returns (rin: RingBuf<nat>, rout: RingBuf<nat>)
      ensures fresh(rin) && fresh(rin.slots) && fresh(rout) && fresh(rout.slots) && rin != rout && rin.slots != rout.slots
      ensures rin.Valid() && rout.Valid() && rin.slots.Length == rout.slots.Length == nevents + 1
      ensures rin.Contents() == seq(nevents, i => i) && rout.Contents() == []
    {
      var eventIn := new nat[nevents + 1](i => i);
      var eventOut := new nat[nevents + 1](_ => 0);
      rin := new RingBuf<nat>(eventIn, true);
      rout := new RingBuf<nat>(eventOut, false);
    }

    lemma Range()
      requires Valid()
      ensures firstChan <= lastChan < chans.Length
    {
    }

    /** load_balance: the next channel, unless another has fewer bytes queued; then the first that has the fewest. */
    method LoadBalance() returns (c: nat)
      requires Valid() && InTurn()
      modifies this`nextChannel
      ensures InTurn() && firstChan <= c <= lastChan
      ensures forall k :: firstChan <= k <= lastChan ==> chans[c].bytes <= chans[k].bytes
      ensures c != old(nextChannel) ==> forall k :: k == old(nextChannel) || firstChan <= k < c ==> chans[c].bytes < chans[k].bytes
      ensures nextChannel == if c == lastChan then firstChan else c + 1
    {
      hide Valid;
      assert firstChan <= lastChan < chans.Length by { Range(); }
      c := nextChannel;
      var queueLen := chans[c].bytes;
      var i := firstChan;
      while i <= lastChan
        invariant firstChan <= i <= lastChan + 1 && firstChan <= c <= lastChan
        invariant queueLen == chans[c].bytes
        invariant forall k :: firstChan <= k < i ==> queueLen <= chans[k].bytes
        invariant queueLen <= chans[nextChannel].bytes
        invariant c != nextChannel ==> c < i && queueLen < chans[nextChannel].bytes
        invariant c != nextChannel ==> forall k :: firstChan <= k < c ==> queueLen < chans[k].bytes
      {
        if chans[i].bytes < queueLen {
          c := i;
          queueLen := chans[i].bytes;
        }
        i := i + 1;
      }
      if c == lastChan {
        nextChannel := firstChan;
      } else {
        nextChannel := c + 1;
      }
    }

    /** start_dma */
    method StartDma(c: nat, x: nat)
      requires c < chans.Length
      modifies chans
      ensures chans[..] == old(chans[..])[c := Started(old(chans[c]), x)]
    {
      chans[c] := chans[c].(state := Running, hw := Some(x));
    }

    /** ppcdma_queue_chain; false stands for -EAGAIN. */
    method QueueOn(c: nat, x: nat) returns (ok: bool)
      requires Valid() && c < chans.Length && x < |lens|
      modifies chans
      ensures Valid() && State() == Enqueue(old(State()), x, c)
      ensures ok <==> old(chans[c].state.Idle? || chans[c].state.Running?)
    {
      var ch := chans[c];
      if !ch.state.Idle? && !ch.state.Running? {
        return false;
      }
      chans[c] := ch.(q := ch.q + [x], bytes := ch.bytes + lens[x], queued := ch.queued + [x]);
      if ch.state.Idle? {
        StartDma(c, x);
      }
      ok := true;
      assert chans[..] == old(chans[..])[c := QueueChain(ch, x, lens[x]).value];
    }

    /** dma_rio_queue_transfer: on the one channel there is, or on the one with the fewest bytes. */
    method QueueTransfer(x: nat, nchans: nat) returns (ok: bool, c: nat)
      requires Valid() && InTurn() && x < |lens|
      modifies this`nextChannel, chans
      ensures Valid() && InTurn() && firstChan <= c <= lastChan && State() == Enqueue(old(State()), x, c)
      ensures nchans == 1 ==> c == firstChan && nextChannel == old(nextChannel)
      ensures nchans != 1 ==> forall k :: firstChan <= k <= lastChan ==> old(chans[c].bytes) <= old(chans[k].bytes)
    {
      Range();
      hide Valid, State;
      if nchans == 1 {
        c := firstChan;
      } else {
        c := LoadBalance();
      }
      ok := QueueOn(c, x);
    }

    /** The fields of an event object are written. */
    method FillIn(id: nat, r: Report)
      requires id < reports.Length
      modifies reports
      ensures reports[..] == old(reports[..])[id := r]
    {
      reports[id] := r;
    }

    /** send_completion: fill in a free event and hand it to the thread, or lose the completion. */
    method SendDone(c: nat, x: nat, ok: bool)
      requires Valid() && c < chans.Length
      modifies this`lost, this`sent, reports, ringIn`iRead, ringOut`iWrite, ringOut.slots
      ensures Valid() && State() == SendCompletion(old(State()), c, x, ok)
    {
      hide Between, Partition, Seen, SendCompletion, Held, Below, EventsOf;
      ghost var free, out, before := ringIn.Contents(), ringOut.Contents(), reports[..];
      PartitionFacts(free, out, Held(thread), reports.Length);
      var event := ringIn.Get();
      if event.None? {
        lost := lost + [Event(0, x, c, ok)];
        SeenAfterDrop(lens, chans[..], out, before, thread, old(lost), sent, fetched, Report(x, c, ok));
        return;
      }
      var id := event.value;
      FillIn(id, Report(x, c, ok));
      var put := ringOut.Put(id);
      sent := sent + [Event(id, x, c, ok)];
      EventMoves(free, out, Held(thread), reports.Length);
      SeenAfterSend(lens, chans[..], free, out, before, thread, lost, old(sent), fetched, Report(x, c, ok));
    }

    /** The hardware is done, and an error in its status stops the channel. */
    method ReadStatus(c: nat, te: bool, pe: bool)
      requires Valid() && c < chans.Length
      modifies chans
      ensures Valid() && State() == old(State()).(chans := chans[..])
      ensures chans[..] == old(chans[..])[c := old(chans[c]).(hw := None, state := if te || pe then ErrStop else old(chans[c]).state)]
    {
      hide Valid, State;
      SetChan(c, chans[c].(hw := None));
      if te {
        SetChan(c, chans[c].(state := ErrStop));
      }
      if pe {
        SetChan(c, chans[c].(state := ErrStop));
      }
    }

    /**
     do_interrupt: `te` and `pe` are the error bits of the channel's status. The finished head is taken off
     the queue and reported; without an error the next transfer is started.
     */
    method DoInterrupt(c: nat, te: bool, pe: bool)
      requires Valid() && c < chans.Length
      modifies chans, this`lost, this`sent, reports, ringIn`iRead, ringOut`iWrite, ringOut.slots
      ensures Valid()
      ensures State() == Interrupt(old(State()), c, te || pe || old(chans[c].state.ErrStop?))
      ensures Reports(old(State()), State(), c, !(te || pe || old(chans[c].state.ErrStop?)))
    {
      hide Valid, State, SendCompletion, Reports, Interrupt;
      ChansOf();
      InterruptReports(State(), c, te || pe || chans[c].state.ErrStop?);
      ghost var d, ch := State(), chans[c];
      ReadStatus(c, te, pe);
      if chans[c].q == [] {
        SetChan(c, chans[c].(state := Idle));
        assert chans[..] == d.chans[c := AfterInterrupt(ch, te || pe || ch.state.ErrStop?)];
        InterruptSteps(d, d.chans, chans[..], c, te || pe || ch.state.ErrStop?);
        return;
      }
      var x := chans[c].q[0];
      SetChan(c, chans[c].(q := chans[c].q[1..], done := chans[c].done + [x]));
      ghost var mid := chans[..];
      if chans[c].state == ErrStop {
        SendDone(c, x, false);
        SetChan(c, chans[c].(state := Idle));
        assert chans[..] == d.chans[c := AfterInterrupt(ch, true)];
        InterruptSteps(d, mid, chans[..], c, true);
      } else {
        SendDone(c, x, true);
        if chans[c].q != [] {
          SetChan(c, Started(chans[c], chans[c].q[0]));
        } else {
          SetChan(c, chans[c].(state := Idle));
        }
        assert chans[..] == d.chans[c := AfterInterrupt(ch, false)];
        InterruptSteps(d, mid, chans[..], c, false);
      }
    }

    lemma ChansOf()
      requires Valid()
      ensures State().chans == chans[..] && |chans[..]| == chans.Length
    {
    }

    /** A field of a channel is written. */
    method SetChan(c: nat, ch: Chan)
      requires Valid() && c < chans.Length
      modifies chans
      ensures Valid() && chans[..] == old(chans[..])[c := ch] && State() == old(State()).(chans := chans[..])
    {
      chans[c] := ch;
    }

    /**
     dma_completion_thread, up to the callback: take the oldest completion, settle the byte count, and flag the
     transfer as completed well or with an error.
     */
    method FetchOne() returns (id: Option<nat>, flaggedOk: bool)
      requires Valid() && Shape(State()) && thread.Waiting?
      modifies chans, this`thread, this`fetched, ringOut`iRead
      ensures Valid()
      ensures id.None? <==> old(State()).out == []
      ensures if id.None? then State() == old(State()) else State() == Fetch(old(State())) && State().thread.Handling?
      ensures id.Some? ==> flaggedOk == old(State()).out[0].ok
    {
      hide Between, Partition, EventsOf, Below, Shape;
      ghost var free, out := ringIn.Contents(), ringOut.Contents();
      PartitionFacts(free, out, [], reports.Length);
      NamedFirst(lens, chans[..], free, out, reports[..], lost, sent, fetched);
      hide Seen;
      id := ringOut.Get();
      flaggedOk := false;
      if id.None? {
        return;
      }
      ghost var e := EventAt(reports[..], out[0]);
      var r := reports[id.value];
      chans[r.chan] := chans[r.chan].(bytes := chans[r.chan].bytes - lens[r.x]);
      flaggedOk := r.ok;
      thread := Handling(e);
      fetched := fetched + [e];
      SeenAfterFetch(lens, old(chans[..]), free, out, reports[..], lost, sent, old(fetched));
      EventTaken(free, out, reports.Length);
    }

    /** dma_completion_thread, after the callback: the event is free again. */
    method GiveBack(id: nat)
      requires Valid() && thread == Returning(id)
      modifies this`thread, ringIn`iWrite, ringIn.slots
      ensures Valid() && State() == PutBack(old(State()))
    {
      hide Between, Seen, Partition, Below;
      ghost var free, out := ringIn.Contents(), ringOut.Contents();
      PartitionFacts(free, out, Held(thread), reports.Length);
      var put := ringIn.Put(id);
      thread := Waiting;
      EventFreed(free, out, id, reports.Length);
      SeenAfterPut(lens, chans[..], free, out, reports[..], id, lost, sent, fetched);
    }
  }

  /** The completion is sent in the middle of the channel's updates. */
  lemma InterruptSteps(d: Dma, mid: seq<Chan>, chans: seq<Chan>, c: nat, error: bool)
    requires c < |d.chans| && chans == d.chans[c := AfterInterrupt(d.chans[c], error)]
    ensures d.chans[c].q == [] ==> Interrupt(d, c, error) == d.(chans := chans)
    ensures d.chans[c].q != [] ==>
              Interrupt(d, c, error) == SendCompletion(d.(chans := mid), c, d.chans[c].q[0], !error).(chans := chans)
  {
  }

  lemma NamedFirst(lens: seq<nat>, chans: seq<Chan>, free: seq<nat>, out: seq<nat>, reports: seq<Report>,
                   lost: seq<Event>, sent: seq<Event>, fetched: seq<Event>)
    requires Shape(Seen(lens, chans, free, out, reports, Waiting, lost, sent, fetched))
    requires Below(out, |reports|)
    ensures |EventsOf(out, reports)| == |out| && (out != [] ==> EventsOf(out, reports)[0] == EventAt(reports, out[0]))
    ensures out != [] ==> out[0] < |reports| && EventAt(reports, out[0]).chan < |chans| && EventAt(reports, out[0]).x < |lens|
  {
    if out != [] {
      assert out[0] in out;
      assert Named(EventsOf(out, reports)[0], |lens|, |chans|);
    }
  }

  lemma SeenAfterPut(lens: seq<nat>, chans: seq<Chan>, free: seq<nat>, out: seq<nat>, reports: seq<Report>, id: nat,
                     lost: seq<Event>, sent: seq<Event>, fetched: seq<Event>)
    ensures Seen(lens, chans, free + [id], out, reports, Waiting, lost, sent, fetched)
         == PutBack(Seen(lens, chans, free, out, reports, Returning(id), lost, sent, fetched))
  {
  }

  lemma EventTaken(free: seq<nat>, out: seq<nat>, n: nat)
    requires Partition(free, out, [], n) && out != []
    ensures Partition(free, out[1..], [out[0]], n)
  {
    MultisetOfPop(out);
    assert free + out + [] == free + out;
  }

  lemma EventFreed(free: seq<nat>, out: seq<nat>, id: nat, n: nat)
    requires Partition(free, out, [id], n)
    ensures Partition(free + [id], out, [], n)
  {
    assert free + [id] + out + [] == free + [id] + out;
  }

  lemma EventMoves(free: seq<nat>, out: seq<nat>, held: seq<nat>, n: nat)
    requires Partition(free, out, held, n) && free != []
    ensures Partition(free[1..], out + [free[0]], held, n)
  {
    MultisetOfPop(free);
  }
}
