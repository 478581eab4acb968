/**
 The transfer queues of the RapidIO DMA driver: channels that run one transfer at a time, the completion
 events that its interrupt handler hands to a thread, and that thread.
 */
module Scheduler {
  import opened Results

  datatype ChanState = Uninit | Idle | Running | ErrStop

  /**
   One DMA channel. `hw` is the transfer that the hardware was started on last and has not finished, and
   `queued` and `done` are the histories of transfers queued on the channel and taken off it.
   */
  datatype Chan = Chan(state: ChanState, q: seq<nat>, bytes: int, hw: Option<nat>, queued: seq<nat>, done: seq<nat>)

  /** A completion event object, filled in: its own number, the transfer, the channel and the status. */
  datatype Event = Event(id: nat, x: nat, chan: nat, ok: bool)

  datatype Thread = Waiting | Handling(e: Event) | Returning(id: nat)

  /**
   The driver: `free` and `out` are the rings of unused events and of completions, `lost` the completions
   for which no unused event was left (with 0 for the number of an event), and `sent` and `fetched` the
   histories of completions put into `out` and taken from it. `lens` holds the byte count of every transfer.
   */
  datatype Dma = Dma(lens: seq<nat>, chans: seq<Chan>, free: seq<nat>, out: seq<Event>, thread: Thread,
                     lost: seq<Event>, sent: seq<Event>, fetched: seq<Event>)

  // ---- Steps --------------------------------------------------------------------------------------------

  /** start_dma */
  function Started(ch: Chan, x: nat): Chan { ch.(state := Running, hw := Some(x)) }

  /** ppcdma_queue_chain; None when the channel refuses the transfer. */
  function QueueChain(ch: Chan, x: nat, len: nat): Option<Chan> {
    if !ch.state.Idle? && !ch.state.Running? then None
    else
      var spooled := ch.(q := ch.q + [x], bytes := ch.bytes + len, queued := ch.queued + [x]);
      Some(if ch.state.Idle? then Started(spooled, x) else spooled)
  }

  /** do_interrupt on the channel's own state; `error` is a transfer or programming error in its status. */
  function AfterInterrupt(ch: Chan, error: bool): Chan {
    var ended := ch.(hw := None);
    if ch.q == [] then ended.(state := Idle)
    else
      var rest := ended.(q := ch.q[1..], done := ch.done + [ch.q[0]]);
      if error || rest.q == [] then rest.(state := Idle) else Started(rest, rest.q[0])
  }

  /** send_completion: a completion is lost when there is no unused event. */
  function SendCompletion(d: Dma, c: nat, x: nat, ok: bool): Dma {
    if d.free == [] then d.(lost := d.lost + [Event(0, x, c, ok)])
    else
      var e := Event(d.free[0], x, c, ok);
      d.(free := d.free[1..], out := d.out + [e], sent := d.sent + [e])
  }

  function Enqueue(d: Dma, x: nat, c: nat): Dma
    requires c < |d.chans| && x < |d.lens|
  {
    match QueueChain(d.chans[c], x, d.lens[x])
    case None => d
    case Some(ch) => d.(chans := d.chans[c := ch])
  }

  function Interrupt(d: Dma, c: nat, error: bool): Dma
    requires c < |d.chans|
  {
    var ch := d.chans[c];
    var d' := d.(chans := d.chans[c := AfterInterrupt(ch, error)]);
    if ch.q == [] then d' else SendCompletion(d', c, ch.q[0], !error)
  }

  /** The thread takes the oldest completion and settles the channel's byte count; its callback follows. */
  function Fetch(d: Dma): Dma
    requires d.thread.Waiting? && d.out != [] && d.out[0].chan < |d.chans| && d.out[0].x < |d.lens|
  {
    var e := d.out[0];
    var ch := d.chans[e.chan];
    d.(chans := d.chans[e.chan := ch.(bytes := ch.bytes - d.lens[e.x])],
       out := d.out[1..], fetched := d.fetched + [e], thread := Handling(e))
  }

  function CallbackDone(d: Dma): Dma
    requires d.thread.Handling?
  {
    d.(thread := Returning(d.thread.e.id))
  }

  /** The thread puts the event back and looks for the next one. */
  function PutBack(d: Dma): Dma
    requires d.thread.Returning?
  {
    d.(free := d.free + [d.thread.id], thread := Waiting)
  }

  function Boot(lens: seq<nat>, nchans: nat, nevents: nat): Dma {
    Dma(lens, seq(nchans, _ => Chan(Idle, [], 0, None, [], [])), seq(nevents, i => i), [], Waiting, [], [], [])
  }

  // ---- Where everything is ------------------------------------------------------------------------------

  function Queued(chs: seq<Chan>): multiset<nat> {
    if chs == [] then multiset{} else multiset(chs[0].q) + Queued(chs[1..])
  }

  function Transfers(es: seq<Event>): seq<nat> { seq(|es|, i requires 0 <= i < |es| => es[i].x) }

  function Ids(es: seq<Event>): seq<nat> { seq(|es|, i requires 0 <= i < |es| => es[i].id) }

  /** Transfers queued on a channel or completed and not fetched, now or, if the completion was lost, ever. */
  function InFlight(d: Dma): multiset<nat> {
    Queued(d.chans) + multiset(Transfers(d.out)) + multiset(Transfers(d.lost))
  }

  function Held(t: Thread): seq<nat> {
    match t
    case Waiting => []
    case Handling(e) => [e.id]
    case Returning(id) => [id]
  }

  /** Every event object, whoever owns it: the free ring, the completion ring or the thread. */
  function Owned(d: Dma): seq<nat> { d.free + Ids(d.out) + Held(d.thread) }

  /** The length of a transfer. */
  function Length(lens: seq<nat>, x: nat): nat { if x < |lens| then lens[x] else 0 }

  function Bytes(lens: seq<nat>, xs: seq<nat>): nat {
    if xs == [] then 0 else Length(lens, xs[0]) + Bytes(lens, xs[1..])
  }

  /** The transfers of channel `c` among the completions. */
  function Of(es: seq<Event>, c: nat): seq<nat> {
    if es == [] then [] else (if es[0].chan == c then [es[0].x] else []) + Of(es[1..], c)
  }

  // ---- The invariant ------------------------------------------------------------------------------------

  /** A channel runs exactly while it has transfers, its hardware works on the head, and it keeps the order. */
  predicate ChanInv(ch: Chan) {
    && (ch.state.Running? || ch.state.Idle?)
    && (ch.state.Running? <==> ch.q != [])
    && ch.hw == (if ch.q == [] then None else Some(ch.q[0]))
    && ch.done + ch.q == ch.queued
  }

  predicate Below(xs: seq<nat>, n: nat) { forall x :: x in xs ==> x < n }

  predicate Named(e: Event, transfers: nat, chans: nat) { e.x < transfers && e.chan < chans }

  /** Only known transfers are queued, and completions name known transfers and channels. */
  predicate Shape(d: Dma) {
    && (forall c :: 0 <= c < |d.chans| ==> Below(d.chans[c].q, |d.lens|))
    && (forall i :: 0 <= i < |d.out| ==> Named(d.out[i], |d.lens|, |d.chans|))
    && (forall i :: 0 <= i < |d.lost| ==> Named(d.lost[i], |d.lens|, |d.chans|))
  }

  predicate ChansInv(d: Dma) { forall c :: 0 <= c < |d.chans| ==> ChanInv(d.chans[c]) }

  /** The byte count of a channel: its queue and its completions that the thread has not fetched, lost ones too. */
  predicate BytesInv(d: Dma) {
    forall c :: 0 <= c < |d.chans| ==>
      d.chans[c].bytes == Bytes(d.lens, d.chans[c].q) + Bytes(d.lens, Of(d.out, c)) + Bytes(d.lens, Of(d.lost, c))
  }

  ghost predicate OnceInv(d: Dma) { forall x :: InFlight(d)[x] <= 1 }

  /** Each of the event objects has exactly one owner. */
  ghost predicate EventsInv(d: Dma, nevents: nat) { multiset(Owned(d)) == multiset(seq(nevents, i => i)) }

  predicate HistoryInv(d: Dma) { d.fetched + d.out == d.sent }

  ghost predicate DmaInv(d: Dma, nevents: nat) {
    Shape(d) && ChansInv(d) && BytesInv(d) && OnceInv(d) && EventsInv(d, nevents) && HistoryInv(d)
  }

  // ---- One channel --------------------------------------------------------------------------------------

  lemma QueueChainKeepsOrder(ch: Chan, x: nat, len: nat)
    requires ChanInv(ch)
    ensures QueueChain(ch, x, len).Some? && ChanInv(QueueChain(ch, x, len).value)
  {
    assert ch.done + (ch.q + [x]) == ch.done + ch.q + [x];
  }

  /** Error-free interrupts keep the order; an error does so exactly when nothing was queued behind it. */
  lemma InterruptKeepsOrderIff(ch: Chan, error: bool)
    requires ChanInv(ch)
    ensures ChanInv(AfterInterrupt(ch, error)) <==> !error || |ch.q| <= 1
  {
    if ch.q != [] {
      assert ch.q == [ch.q[0]] + ch.q[1..];
      assert ch.done + [ch.q[0]] + ch.q[1..] == ch.done + ch.q;
    }
  }

  /**
   What goes wrong otherwise: the next transfer queued is started ahead of those waiting, and when it
   finishes it is the one that waited first that is reported complete.
   */
  lemma ErrorReportsWrongTransfer(ch: Chan, x: nat, len: nat)
    requires ChanInv(ch) && |ch.q| > 1
    ensures var failed := AfterInterrupt(ch, true);
            var next := QueueChain(failed, x, len);
            next.Some? && next.value.hw == Some(x) && AfterInterrupt(next.value, false).done == ch.done + [ch.q[0], ch.q[1]]
  {
    var next := QueueChain(AfterInterrupt(ch, true), x, len).value;
    assert next.q == ch.q[1..] + [x] && next.q[0] == ch.q[1];
    assert ch.done + [ch.q[0]] + [ch.q[1]] == ch.done + [ch.q[0], ch.q[1]];
  }

  /**
   From `d` to `d'` the head of channel `c`'s queue, if there is one, is reported once, with status `ok`: as a
   completion if there is an unused event, and otherwise as a lost one. Nothing else is reported.
   */
  predicate Reports(d: Dma, d': Dma, c: nat, ok: bool)
    requires c < |d.chans|
  {
    var q := d.chans[c].q;
    && (q == [] || d.free == [] ==> d'.sent == d.sent)
    && (q == [] || d.free != [] ==> d'.lost == d.lost)
    && (q != [] && d.free != [] ==> d'.sent == d.sent + [Event(d.free[0], q[0], c, ok)])
    && (q != [] && d.free == [] ==> d'.lost == d.lost + [Event(0, q[0], c, ok)])
  }

  /** An interrupt reports the head with good status exactly if there was no error. */
  lemma InterruptReports(d: Dma, c: nat, error: bool)
    requires c < |d.chans|
    ensures Reports(d, Interrupt(d, c, error), c, !error)
  {
  }

  // ---- Counting transfers and events ----------------------------------------------------------------------

  lemma Regroup<T>(a: multiset<T>, x: multiset<T>, y: multiset<T>, x': multiset<T>, y': multiset<T>)
    requires x' + y == x + y'
    ensures (a + x') + y == (a + x) + y'
  {
    assert (a + x') + y == a + (x' + y);
    assert (a + x) + y' == a + (x + y');
  }

  /** Changing one channel's queue changes what is queued by the difference. */
  lemma {:induction false} QueuedUpdate(chs: seq<Chan>, c: nat, ch: Chan)
    requires c < |chs|
    ensures Queued(chs[c := ch]) + multiset(chs[c].q) == Queued(chs) + multiset(ch.q)
  {
    var chs' := chs[c := ch];
    if c == 0 {
      assert chs'[1..] == chs[1..];
    } else {
      QueuedUpdate(chs[1..], c - 1, ch);
      assert chs'[1..] == chs[1..][c - 1 := ch];
      Regroup(multiset(chs[0].q), Queued(chs[1..]), multiset(chs[c].q), Queued(chs'[1..]), multiset(ch.q));
    }
  }

  lemma {:induction false} QueueWithin(chs: seq<Chan>, c: nat, x: nat)
    requires c < |chs| && x in chs[c].q
    ensures Queued(chs)[x] >= 1
  {
    if c > 0 {
      QueueWithin(chs[1..], c - 1, x);
    }
  }

  lemma MultisetOfPush<T>(s: seq<T>, x: T)
    ensures multiset(s + [x]) == multiset(s) + multiset{x}
  {
  }

  lemma MultisetOfPop<T>(s: seq<T>)
    requires s != []
    ensures multiset(s) == multiset(s[1..]) + multiset{s[0]}
  {
    assert s == [s[0]] + s[1..];
  }

  /** A multiset of numbers below `n` without repetition has at most `n` elements. */
  lemma {:induction false} NoRepetitionBound(m: multiset<nat>, n: nat)
    requires forall x :: m[x] <= 1
    requires forall x :: x in m ==> x < n
    ensures |m| <= n
  {
    if n == 0 {
      assert m == multiset{};
    } else {
      var rest := m[n - 1 := 0];
      NoRepetitionBound(rest, n - 1);
      assert m == rest || m == rest + multiset{n - 1};
    }
  }

  lemma {:induction false} QueuedBelow(chs: seq<Chan>, n: nat, x: nat)
    requires forall c :: 0 <= c < |chs| ==> Below(chs[c].q, n)
    requires x in Queued(chs)
    ensures x < n
  {
    if x in chs[0].q {
    } else {
      QueuedBelow(chs[1..], n, x);
    }
  }

  lemma EventsBelow(es: seq<Event>, transfers: nat, chans: nat, x: nat)
    requires forall i :: 0 <= i < |es| ==> Named(es[i], transfers, chans)
    requires x in Transfers(es)
    ensures x < transfers
  {
    var i :| 0 <= i < |es| && es[i].x == x;
    assert Named(es[i], transfers, chans);
  }

  lemma TransfersBelow(d: Dma, x: nat)
    requires Shape(d) && x in InFlight(d)
    ensures x < |d.lens|
  {
    if x in Queued(d.chans) {
      QueuedBelow(d.chans, |d.lens|, x);
    } else if x in Transfers(d.out) {
      EventsBelow(d.out, |d.lens|, |d.chans|, x);
    } else {
      EventsBelow(d.lost, |d.lens|, |d.chans|, x);
    }
  }

  /** While there are fewer transfers than event objects, a finishing transfer finds an unused event. */
  lemma FreeEventLeft(d: Dma, nevents: nat, c: nat)
    requires Shape(d) && OnceInv(d) && EventsInv(d, nevents) && |d.lens| < nevents
    requires c < |d.chans| && d.chans[c].q != []
    ensures d.free != []
  {
    var x := d.chans[c].q[0];
    var m := multiset(Transfers(d.out)) + multiset{x};
    QueueWithin(d.chans, c, x);
    forall y | y in m ensures y < |d.lens| {
      TransfersBelow(d, y);
    }
    OwnedSize(d, nevents);
    hide Queued;
    assert forall y :: m[y] <= InFlight(d)[y];
    NoRepetitionBound(m, |d.lens|);
  }

  lemma OwnedSize(d: Dma, nevents: nat)
    requires EventsInv(d, nevents)
    ensures |d.free| + |d.out| + |Held(d.thread)| == nevents
  {
    assert |multiset(Owned(d))| == |Owned(d)|;
    assert |multiset(seq(nevents, i => i))| == nevents;
  }

  lemma TransfersPush(es: seq<Event>, e: Event)
    ensures Transfers(es + [e]) == Transfers(es) + [e.x] && Ids(es + [e]) == Ids(es) + [e.id]
  {
  }

  lemma TransfersPop(es: seq<Event>)
    requires es != []
    ensures Transfers(es) == [es[0].x] + Transfers(es[1..]) && Ids(es) == [es[0].id] + Ids(es[1..])
  {
  }

  lemma EnqueueInFlight(d: Dma, x: nat, c: nat)
    requires ChansInv(d) && c < |d.chans| && x < |d.lens|
    ensures InFlight(Enqueue(d, x, c)) == InFlight(d) + multiset{x}
  {
    var ch := QueueChain(d.chans[c], x, d.lens[x]).value;
    QueuedUpdate(d.chans, c, ch);
    MultisetOfPush(d.chans[c].q, x);
    hide Queued, Transfers;
    Cancel(Queued(d.chans), multiset(d.chans[c].q), Queued(d.chans[c := ch]), multiset{x});
  }

  lemma Cancel<T>(a: multiset<T>, m: multiset<T>, b: multiset<T>, e: multiset<T>)
    requires b + m == a + (m + e)
    ensures b == a + e
  {
    forall t | true ensures b[t] == (a + e)[t] {
      assert (b + m)[t] == (a + (m + e))[t];
    }
  }

  /** The head of a queue goes elsewhere. */
  lemma HeadQueued(chs: seq<Chan>, c: nat, ch: Chan)
    requires c < |chs| && chs[c].q != [] && ch.q == chs[c].q[1..]
    ensures Queued(chs) == Queued(chs[c := ch]) + multiset{chs[c].q[0]}
  {
    QueuedUpdate(chs, c, ch);
    MultisetOfPop(chs[c].q);
    hide Queued;
    var queued', x := Queued(chs[c := ch]), chs[c].q[0];
    assert queued' + (multiset(ch.q) + multiset{x}) == Queued(chs) + multiset(ch.q);
    Cancel(queued' + multiset{x}, multiset(ch.q), Queued(chs), multiset{});
  }

  lemma PushedTransfers(es: seq<Event>, e: Event)
    ensures multiset(Transfers(es + [e])) == multiset(Transfers(es)) + multiset{e.x}
  {
    TransfersPush(es, e);
    hide Transfers;
    MultisetOfPush(Transfers(es), e.x);
  }

  lemma SameQueued(chs: seq<Chan>, c: nat, ch: Chan)
    requires c < |chs| && ch.q == chs[c].q
    ensures Queued(chs[c := ch]) == Queued(chs)
  {
    QueuedUpdate(chs, c, ch);
    hide Queued;
    Cancel(Queued(chs), multiset(ch.q), Queued(chs[c := ch]), multiset{});
  }

  /** A completion that finds an event, or is lost, is in flight as the transfer in the queue was. */
  lemma InterruptInFlight(d: Dma, c: nat, error: bool)
    requires c < |d.chans|
    ensures InFlight(Interrupt(d, c, error)) == InFlight(d)
  {
    hide Queued, Transfers;
    var ch := d.chans[c];
    var ch' := AfterInterrupt(ch, error);
    if ch.q == [] {
      SameQueued(d.chans, c, ch');
    } else {
      HeadQueued(d.chans, c, ch');
      if d.free == [] {
        PushedTransfers(d.lost, Event(0, ch.q[0], c, !error));
      } else {
        PushedTransfers(d.out, Event(d.free[0], ch.q[0], c, !error));
      }
    }
  }

  lemma FetchInFlight(d: Dma)
    requires d.thread.Waiting? && d.out != [] && d.out[0].chan < |d.chans| && d.out[0].x < |d.lens|
    ensures InFlight(d) == InFlight(Fetch(d)) + multiset{d.out[0].x}
  {
    var e := d.out[0];
    QueuedUpdate(d.chans, e.chan, Fetch(d).chans[e.chan]);
    TransfersPop(d.out);
    MultisetOfPop(Transfers(d.out));
    assert Transfers(d.out)[1..] == Transfers(d.out[1..]);
    hide Queued, Transfers;
    Cancel(Queued(d.chans), multiset(d.chans[e.chan].q), Queued(Fetch(d).chans), multiset{});
  }

  // ---- Every step keeps the invariant -------------------------------------------------------------------------

  lemma {:induction false} BytesAppend(lens: seq<nat>, xs: seq<nat>, x: nat)
    ensures Bytes(lens, xs + [x]) == Bytes(lens, xs) + Length(lens, x)
  {
    if xs == [] {
      assert xs + [x] == [x];
    } else {
      assert (xs + [x])[1..] == xs[1..] + [x];
      BytesAppend(lens, xs[1..], x);
    }
  }

  function OfOne(e: Event, c: nat): seq<nat> { if e.chan == c then [e.x] else [] }

  lemma OfCons(es: seq<Event>, c: nat)
    requires es != []
    ensures Of(es, c) == OfOne(es[0], c) + Of(es[1..], c)
  {
  }

  lemma {:induction false} OfAppend(es: seq<Event>, e: Event, c: nat)
    ensures Of(es + [e], c) == Of(es, c) + OfOne(e, c)
  {
    var all := es + [e];
    OfCons(all, c);
    if es == [] {
      assert all[1..] == [];
    } else {
      assert all[1..] == es[1..] + [e] && all[0] == es[0];
      OfAppend(es[1..], e, c);
      OfCons(es, c);
      hide Of, OfOne;
      assert OfOne(es[0], c) + (Of(es[1..], c) + OfOne(e, c)) == OfOne(es[0], c) + Of(es[1..], c) + OfOne(e, c);
    }
  }

  /** Replacing a channel by one that keeps its order, with its bytes still accounted for. */
  lemma ChanUpdated(d: Dma, d': Dma, c: nat, ch: Chan)
    requires Shape(d) && ChansInv(d) && BytesInv(d) && c < |d.chans|
    requires d'.lens == d.lens && d'.chans == d.chans[c := ch]
    requires ChanInv(ch) && Below(ch.q, |d.lens|)
    requires forall i :: 0 <= i < |d'.out| ==> Named(d'.out[i], |d.lens|, |d.chans|)
    requires forall i :: 0 <= i < |d'.lost| ==> Named(d'.lost[i], |d.lens|, |d.chans|)
    requires forall k :: 0 <= k < |d.chans| && k != c ==> Of(d'.out, k) == Of(d.out, k) && Of(d'.lost, k) == Of(d.lost, k)
    requires ch.bytes == Bytes(d.lens, ch.q) + Bytes(d.lens, Of(d'.out, c)) + Bytes(d.lens, Of(d'.lost, c))
    ensures Shape(d') && ChansInv(d') && BytesInv(d')
  {
    hide ChanInv, Below, Named, Bytes, Of;
  }

  lemma EnqueueChans(d: Dma, x: nat, c: nat)
    requires Shape(d) && ChansInv(d) && BytesInv(d) && c < |d.chans| && x < |d.lens|
    ensures var d' := Enqueue(d, x, c);
            && Shape(d') && ChansInv(d') && BytesInv(d')
            && d' == d.(chans := d'.chans)
  {
    hide Of, Named;
    var ch := d.chans[c];
    QueueChainKeepsOrder(ch, x, d.lens[x]);
    BytesAppend(d.lens, ch.q, x);
    var ch' := QueueChain(ch, x, d.lens[x]).value;
    assert Below(ch.q, |d.lens|);
    BelowPush(ch.q, x, |d.lens|);
    hide Bytes, ChanInv, Below;
    ChanUpdated(d, Enqueue(d, x, c), c, ch');
  }

  lemma BelowPush(xs: seq<nat>, x: nat, n: nat)
    requires Below(xs, n) && x < n
    ensures Below(xs + [x], n)
  {
  }

  lemma BelowPop(xs: seq<nat>, n: nat)
    requires Below(xs, n) && xs != []
    ensures xs[0] < n && Below(xs[1..], n)
  {
    assert xs[0] in xs;
    assert forall x :: x in xs[1..] ==> x in xs;
  }

  lemma EnqueueKeepsInv(d: Dma, nevents: nat, x: nat, c: nat)
    requires DmaInv(d, nevents) && c < |d.chans| && x < |d.lens| && InFlight(d)[x] == 0
    ensures DmaInv(Enqueue(d, x, c), nevents)
  {
    hide Shape, ChansInv, BytesInv, InFlight, Ids, Held, Enqueue;
    EnqueueChans(d, x, c);
    EnqueueInFlight(d, x, c);
  }

  lemma InterruptKeepsInv(d: Dma, nevents: nat, c: nat)
    requires DmaInv(d, nevents) && c < |d.chans|
    ensures DmaInv(Interrupt(d, c, false), nevents)
  {
    hide Shape, ChansInv, BytesInv, InFlight, Owned, SendCompletion, AfterInterrupt;
    if d.chans[c].q != [] {
      InterruptTakesHead(d, nevents, c);
    } else {
      SpuriousInterrupt(d, c);
    }
  }

  /** With fewer transfers than events none is lost. */
  lemma NothingLost(d: Dma, nevents: nat, c: nat)
    requires DmaInv(d, nevents) && |d.lens| < nevents && c < |d.chans|
    ensures Interrupt(d, c, false).lost == d.lost
  {
    hide BytesInv, InFlight, Owned, AfterInterrupt, ChansInv, HistoryInv;
    if d.chans[c].q != [] {
      FreeEventLeft(d, nevents, c);
    }
  }

  /** An interrupt on an empty channel changes nothing. */
  lemma SpuriousInterrupt(d: Dma, c: nat)
    requires ChansInv(d) && c < |d.chans| && d.chans[c].q == []
    ensures Interrupt(d, c, false) == d
  {
    assert AfterInterrupt(d.chans[c], false) == d.chans[c];
    assert d.chans[c := d.chans[c]] == d.chans;
  }

  /** One more completion of channel `c`. */
  lemma BytesOfPush(lens: seq<nat>, es: seq<Event>, e: Event)
    ensures forall k :: k != e.chan ==> Of(es + [e], k) == Of(es, k)
    ensures Bytes(lens, Of(es + [e], e.chan)) == Bytes(lens, Of(es, e.chan)) + Length(lens, e.x)
  {
    forall k ensures Of(es + [e], k) == Of(es, k) + (if k == e.chan then [e.x] else []) {
      OfAppend(es, e, k);
    }
    hide Of;
    BytesAppend(lens, Of(es, e.chan), e.x);
  }

  lemma InterruptChans(d: Dma, c: nat)
    requires Shape(d) && ChansInv(d) && BytesInv(d) && c < |d.chans| && d.chans[c].q != []
    ensures var d' := Interrupt(d, c, false); Shape(d') && ChansInv(d') && BytesInv(d')
  {
    var ch := d.chans[c];
    var ch', x := AfterInterrupt(ch, false), ch.q[0];
    var e := Event(if d.free == [] then 0 else d.free[0], x, c, true);
    InterruptKeepsOrderIff(ch, false);
    hide ChanInv;
    assert Below(ch.q, |d.lens|);
    BelowPop(ch.q, |d.lens|);
    assert Named(e, |d.lens|, |d.chans|);
    hide Below, Named;
    BytesOfPush(d.lens, d.out, e);
    BytesOfPush(d.lens, d.lost, e);
    assert Bytes(d.lens, ch.q) == Length(d.lens, x) + Bytes(d.lens, ch'.q);
    hide Bytes, Of;
    ChanUpdated(d, Interrupt(d, c, false), c, ch');
  }

  lemma InterruptTakesHead(d: Dma, nevents: nat, c: nat)
    requires DmaInv(d, nevents) && c < |d.chans| && d.chans[c].q != []
    ensures DmaInv(Interrupt(d, c, false), nevents)
  {
    hide Shape, ChansInv, BytesInv, InFlight;
    InterruptChans(d, c);
    InterruptInFlight(d, c, false);
    if d.free != [] {
      var e := Event(d.free[0], d.chans[c].q[0], c, true);
      OwnedAfterSend(d, e);
      assert d.fetched + (d.out + [e]) == d.fetched + d.out + [e];
    }
  }

  /** The event moves from the free ring to the completion ring. */
  lemma OwnedAfterSend(d: Dma, e: Event)
    requires d.free != [] && e.id == d.free[0]
    ensures multiset(d.free[1..] + Ids(d.out + [e]) + Held(d.thread)) == multiset(Owned(d))
  {
    TransfersPush(d.out, e);
    MultisetOfPop(d.free);
    assert multiset(Ids(d.out) + [e.id]) == multiset(Ids(d.out)) + multiset{e.id};
  }

  /** One completion fewer of its channel. */
  lemma BytesOfPop(lens: seq<nat>, es: seq<Event>)
    requires es != []
    ensures forall k :: k != es[0].chan ==> Of(es[1..], k) == Of(es, k)
    ensures Bytes(lens, Of(es, es[0].chan)) == Length(lens, es[0].x) + Bytes(lens, Of(es[1..], es[0].chan))
  {
    assert Of(es, es[0].chan) == [es[0].x] + Of(es[1..], es[0].chan);
  }

  lemma FetchChans(d: Dma)
    requires Shape(d) && ChansInv(d) && BytesInv(d) && d.thread.Waiting? && d.out != []
    ensures d.out[0].x < |d.lens| && d.out[0].chan < |d.chans|
    ensures Shape(Fetch(d)) && ChansInv(Fetch(d)) && BytesInv(Fetch(d))
  {
    var e := d.out[0];
    assert Named(e, |d.lens|, |d.chans|);
    var ch := d.chans[e.chan];
    var ch' := ch.(bytes := ch.bytes - d.lens[e.x]);
    assert ChanInv(ch) && Below(ch.q, |d.lens|);
    assert ChanInv(ch');
    hide ChanInv, Below, Named;
    BytesOfPop(d.lens, d.out);
    hide Bytes, Of;
    ChanUpdated(d, Fetch(d), e.chan, ch');
  }

  lemma OwnedAfterFetch(d: Dma)
    requires d.thread.Waiting? && d.out != []
    ensures multiset(d.free + Ids(d.out[1..]) + [d.out[0].id]) == multiset(Owned(d))
  {
    TransfersPop(d.out);
    MultisetOfPop(Ids(d.out));
    assert Ids(d.out)[1..] == Ids(d.out[1..]);
    hide Ids;
    assert d.free + Ids(d.out) + [] == d.free + Ids(d.out);
  }

  lemma FetchKeepsInv(d: Dma, nevents: nat)
    requires DmaInv(d, nevents) && d.thread.Waiting? && d.out != []
    ensures d.out[0].x < |d.lens| && d.out[0].chan < |d.chans| && DmaInv(Fetch(d), nevents)
    ensures InFlight(d) == InFlight(Fetch(d)) + multiset{d.out[0].x}
  {
    hide Shape, ChansInv, BytesInv, InFlight, Ids;
    FetchChans(d);
    FetchInFlight(d);
    OwnedAfterFetch(d);
    assert forall y :: InFlight(Fetch(d))[y] <= InFlight(d)[y];
    assert EventsInv(Fetch(d), nevents);
    assert d.fetched + [d.out[0]] + d.out[1..] == d.fetched + d.out;
  }

  lemma SameQueues(d: Dma, d': Dma)
    requires d'.lens == d.lens && d'.chans == d.chans && d'.out == d.out && d'.lost == d.lost
    ensures Shape(d) ==> Shape(d')
    ensures ChansInv(d) ==> ChansInv(d')
    ensures BytesInv(d) ==> BytesInv(d')
    ensures InFlight(d') == InFlight(d)
  {
    hide ChanInv, Below, Named, Bytes, Of, Queued, Transfers;
  }

  lemma CallbackKeepsInv(d: Dma, nevents: nat)
    requires DmaInv(d, nevents) && d.thread.Handling?
    ensures DmaInv(CallbackDone(d), nevents) && InFlight(CallbackDone(d)) == InFlight(d)
  {
    hide Shape, ChansInv, BytesInv, InFlight, Ids;
    SameQueues(d, CallbackDone(d));
  }

  lemma OwnedAfterPut(d: Dma)
    requires d.thread.Returning?
    ensures multiset(d.free + [d.thread.id] + Ids(d.out) + []) == multiset(Owned(d))
  {
    hide Ids;
    assert d.free + [d.thread.id] + Ids(d.out) + [] == d.free + [d.thread.id] + Ids(d.out);
  }

  lemma PutBackKeepsInv(d: Dma, nevents: nat)
    requires DmaInv(d, nevents) && d.thread.Returning?
    ensures DmaInv(PutBack(d), nevents) && InFlight(PutBack(d)) == InFlight(d)
  {
    hide Shape, ChansInv, BytesInv, InFlight, Ids;
    SameQueues(d, PutBack(d));
    OwnedAfterPut(d);
  }

  lemma BootInv(lens: seq<nat>, nchans: nat, nevents: nat)
    ensures DmaInv(Boot(lens, nchans, nevents), nevents) && InFlight(Boot(lens, nchans, nevents)) == multiset{}
  {
    var d := Boot(lens, nchans, nevents);
    NothingQueued(d.chans);
    assert Owned(d) == d.free;
  }

  lemma {:induction false} NothingQueued(chs: seq<Chan>)
    requires forall c :: 0 <= c < |chs| ==> chs[c].q == []
    ensures Queued(chs) == multiset{}
  {
    if chs != [] {
      NothingQueued(chs[1..]);
    }
  }
}
